/** The descriptor-level environment of the archive engines.  The real
    write(2) and read(2) calls are replaced by scripts of their results,
    so every proof holds for every sequence of outcomes the kernel could
    produce. */
module ArchiveIo {
  import opened CpioTypes

  /** What write(2) returns when asked to write `n` bytes, given the
      script of upcoming results: a negative scripted value is an error
      (-1), a non-negative one is the number of bytes accepted (never more
      than asked), and an exhausted script accepts everything. */
  function WriteResult(script: seq<int>, n: nat): (r: int)
    ensures -1 <= r <= n
    ensures script == [] ==> r == n
    ensures script != [] && script[0] >= n ==> r == n
    ensures r < 0 <==> (script != [] && script[0] < 0)
  {
    if script == [] then n
    else if script[0] < 0 then -1
    else if script[0] < n then script[0]
    else n
  }

  function Tail(script: seq<int>): seq<int> {
    if script == [] then [] else script[1..]
  }

  /** Every scripted write(2) result accepts a whole block of `w` bytes,
      so no write of at most `w` bytes fails or comes up short. */
  ghost predicate AllFull(script: seq<int>, w: int) {
    forall i :: 0 <= i < |script| ==> script[i] >= w
  }

  /** Consuming one write result keeps every remaining one full. */
  lemma AllFullTail(script: seq<int>, w: int)
    requires AllFull(script, w)
    ensures AllFull(Tail(script), w)
  {
  }

  /** The write(2) results still to come after `n` more calls. */
  function After(script: seq<int>, n: nat): seq<int> {
    if n == 0 then script else After(Tail(script), n - 1)
  }

  /** Each of the next `n` write(2) calls, asked for `w` bytes, accepts
      all of them: none fails or comes up short. */
  ghost predicate FirstFull(script: seq<int>, n: nat, w: nat) {
    n == 0 || (WriteResult(script, w) == w && FirstFull(Tail(script), n - 1, w))
  }

  /** A single call is full exactly when its write of `w` bytes is. */
  lemma FirstFullOne(script: seq<int>, w: nat)
    ensures After(script, 1) == Tail(script)
    ensures FirstFull(script, 1, w) <==> WriteResult(script, w) == w
  {
  }

  /** `k` calls followed by `m` more use up the script as `k + m` calls
      do, and all of them are full exactly when both runs are. */
  lemma {:induction false} FirstFullSplit(script: seq<int>, k: nat, m: nat, w: nat)
    ensures After(After(script, k), m) == After(script, k + m)
    ensures FirstFull(script, k + m, w) <==> FirstFull(script, k, w) && FirstFull(After(script, k), m, w)
  {
    if k > 0 {
      FirstFullSplit(Tail(script), k - 1, m, w);
    }
  }

  /** When every scripted result accepts a whole block, any number of
      block-sized calls are all full. */
  lemma {:induction false} AllFullFirstFull(script: seq<int>, n: nat, w: nat)
    requires AllFull(script, w)
    ensures FirstFull(script, n, w)
  {
    if n > 0 {
      AllFullTail(script, w);
      AllFullFirstFull(Tail(script), n - 1, w);
    }
  }

  /** Using up results keeps every remaining one full. */
  lemma {:induction false} AllFullAfter(script: seq<int>, n: nat, w: int)
    requires AllFull(script, w)
    ensures AllFull(After(script, n), w)
  {
    if n > 0 {
      AllFullTail(script, w);
      AllFullAfter(Tail(script), n - 1, w);
    }
  }

  /** The number of bytes that reached the file for a write(2) result. */
  function Accepted(r: int, n: nat): (k: nat)
    requires -1 <= r <= n
    ensures k <= n && (r >= 0 ==> k == r) && (r < 0 ==> k == 0)
  {
    if r < 0 then 0 else r
  }

  /** The archive file seen through its write descriptor. */
  class Sink {
    /** The bytes that have reached the archive file. */
    var data: seq<byte>
    /** Results of the write(2) calls still to come. */
    var script: seq<int>
    /** Every buffer handed to write(2), in order. */
    ghost var calls: seq<seq<byte>>

    constructor (script: seq<int>)
      ensures data == [] && this.script == script && calls == []
    {
      data := [];
      this.script := script;
      calls := [];
    }

    /** write(fd, bytes, |bytes|). */
    method Write(bytes: seq<byte>) returns (r: int)
      modifies this
      ensures r == WriteResult(old(script), |bytes|)
      ensures script == Tail(old(script))
      ensures calls == old(calls) + [bytes]
      ensures data == old(data) + bytes[..Accepted(r, |bytes|)]
    {
      r := WriteResult(script, |bytes|);
      data := data + bytes[..Accepted(r, |bytes|)];
      script := Tail(script);
      calls := calls + [bytes];
    }
  }

  /** One result of read(2) on the archive: an error, or some bytes (none
      at all is end of file). */
  datatype Chunk = Failed | Data(bytes: seq<byte>)

  /** All bytes a read script can deliver, in order. */
  function Bytes(script: seq<Chunk>): seq<byte> {
    if script == [] then []
    else (if script[0].Data? then script[0].bytes else []) + Bytes(script[1..])
  }

  /** A well-founded size of a read script. */
  function Size(script: seq<Chunk>): nat {
    if script == [] then 0
    else (if script[0].Data? then |script[0].bytes| + 1 else 1) + Size(script[1..])
  }

  datatype ReadResult = ReadResult(r: int, got: seq<byte>, rest: seq<Chunk>)

  /** read(fd, buf, n): the next scripted chunk, cut to at most `n` bytes
      (the remainder stays for the next call).  An exhausted script or an
      empty chunk is end of file. */
  function Read(script: seq<Chunk>, n: nat): (res: ReadResult)
    requires n > 0
    ensures -1 <= res.r <= n
    ensures res.r >= 0 ==> |res.got| == res.r
    ensures res.r > 0 ==> Bytes(script) == res.got + Bytes(res.rest)
    ensures res.r > 0 ==> Size(res.rest) < Size(script)
    ensures res.r < 0 <==> (script != [] && script[0].Failed?)
    ensures res.r == 0 <==> (script == [] || script[0] == Data([]))
  {
    if script == [] then ReadResult(0, [], [])
    else match script[0]
      case Failed => ReadResult(-1, [], script[1..])
      case Data(b) =>
        if |b| <= n then ReadResult(|b|, b, script[1..])
        else
          var rest := [Data(b[n..])] + script[1..];
          assert rest[1..] == script[1..];
          assert b == b[..n] + b[n..];
          ReadResult(n, b[..n], rest)
  }
}
