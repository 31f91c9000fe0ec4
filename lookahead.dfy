/** What both read loops share: the decoder they call, the entries a
    scan goes through, the body accounting of one streaming step, and the
    destination-file bookkeeping. */
module Lookahead {
  import opened CpioTypes
  import opened ArchiveIo
  import Mem

  /** The three answers of `cpio_header_deserialise`: -1, 0, or a
      positive count of consumed bytes together with a header. */
  datatype Decoded = DecodeError | NeedMore | Parsed(consumed: nat, header: Header)

  /** The codec's decoder, as a function of the buffered bytes. */
  type Decoder = seq<byte> -> Decoded

  /** The decoder's promise: a positive count, never more bytes than it
      was given, and a header that owns a filename. */
  ghost predicate DecoderContract(decode: Decoder) {
    forall s :: decode(s).Parsed? ==>
      0 < decode(s).consumed <= |s| && decode(s).header.filename.Some?
  }

  /** Why a scan stopped. */
  datatype Stop = AtTrailer | DecodeFailed | EndOfInput | ReadFailed | HeaderTooLong

  /** The value the read loops return for each way of stopping: only the
      trailer and a decoder error leave `retval` at 0.  This is a
      definition; its contract spells out each case of it. */
  function Retval(stop: Stop): (r: int)
    ensures r == 0 <==> (stop.AtTrailer? || stop.DecodeFailed?)
    ensures r == 0 || r == -1
  {
    if stop.AtTrailer? || stop.DecodeFailed? then 0 else -1
  }

  /** The destination descriptor of one entry and the bytes that reached
      it: never opened, still open, or closed after a short write. */
  datatype Dest = NotOpened | Writing(persisted: seq<byte>) | Abandoned(persisted: seq<byte>)

  /** One write(target_fd, chunk, cr) that returned `wr`: a full write
      keeps the destination open; anything else keeps only what the kernel
      accepted and closes it.  Without an open destination nothing is
      written. */
  function Deliver(d: Dest, chunk: seq<byte>, wr: int): (d': Dest)
    ensures d.NotOpened? || d.Abandoned? ==> d' == d
    ensures d.Writing? && wr == |chunk| ==> d' == Writing(d.persisted + chunk)
    ensures d.Writing? && wr != |chunk| ==>
              d'.Abandoned? && d.persisted <= d'.persisted <= d.persisted + chunk
  {
    match d
    case Writing(p) =>
      if wr == |chunk| then Writing(p + chunk)
      else
        var k := if 0 <= wr <= |chunk| then wr else 0;
        assert (p + chunk)[..|p| + k] == p + chunk[..k];
        Abandoned(p + chunk[..k])
    case _ => d
  }

  /** A destination's bytes are a prefix of what was delivered to it. */
  ghost predicate PersistedPrefix(d: Dest, body: seq<byte>) {
    (d.Writing? ==> d.persisted == body) && (d.Abandoned? ==> d.persisted <= body)
  }

  /** Delivering the next chunk of a body keeps the destination a prefix
      of the body: a still-open destination holds exactly the body so far,
      an abandoned one a prefix of it. */
  lemma DeliverKeepsPrefix(d: Dest, body: seq<byte>, chunk: seq<byte>, wr: int)
    requires PersistedPrefix(d, body)
    ensures PersistedPrefix(Deliver(d, chunk, wr), body + chunk)
  {
    if d.Abandoned? {
      assert d.persisted <= body + chunk;
    }
  }

  /** `cr = MIN(st_size - consumed_bytes, buf_len)`: how many body bytes
      one streaming step takes from the front of the lookahead buffer. */
  function BodyTake(size: nat, consumed: nat, avail: nat): (cr: nat)
    requires consumed <= size
    ensures cr <= avail && consumed + cr <= size
    ensures consumed + cr == size || cr == avail
    ensures consumed + cr == size <==> avail >= size - consumed
  {
    if size - consumed < avail then size - consumed else avail
  }

  /** One parsed header and what the scan did with its body: the bytes
      the decoder was shown, the header bytes it consumed, the body bytes
      that followed, and the destination. */
  datatype Entry = Entry(window: seq<byte>, raw: seq<byte>, header: Header,
                         body: seq<byte>, dest: Dest)

  /** The archive bytes a run of entries accounts for. */
  function Stream(entries: seq<Entry>): seq<byte> {
    if entries == [] then [] else Stream(entries[..|entries| - 1]) + entries[|entries| - 1].raw + entries[|entries| - 1].body
  }

  lemma StreamSnoc(entries: seq<Entry>, e: Entry)
    ensures Stream(entries + [e]) == Stream(entries) + e.raw + e.body
  {
    assert (entries + [e])[..|entries|] == entries;
  }

  /** Moving `x` from the front of the unread bytes to the end of the
      accounted ones leaves the whole unchanged. */
  lemma TakeFront(past: seq<byte>, held: seq<byte>, x: seq<byte>, left: seq<byte>, t: seq<byte>)
    requires held == x + left
    ensures past + (held + t) == (past + x) + (left + t)
  {
  }

  /** Accounting a parsed header opens a new entry with an empty body. */
  lemma StartEntry(s: seq<byte>, raw: seq<byte>)
    ensures s + [] + [] + raw == s + raw + []
  {
  }

  /** Between entries nothing but the completed stream is accounted. */
  lemma NoEntry(s: seq<byte>)
    ensures s + [] + [] == s
  {
  }

  /** Accounting body bytes extends the current entry's body. */
  lemma GrowBody(s: seq<byte>, raw: seq<byte>, body: seq<byte>, chunk: seq<byte>)
    ensures s + raw + body + chunk == s + raw + (body + chunk)
  {
  }

  /** The accounted bytes, and any start of the unread ones after them,
      form a prefix of the whole. */
  lemma AccountedPrefix(a: seq<byte>, b: seq<byte>, c: seq<byte>, x: seq<byte>, y: seq<byte>)
    ensures a <= a + b + c + (x + y)
    ensures a + b <= a + b + c + (x + y)
    ensures a + b + c + x <= a + b + c + (x + y)
  {
    assert a + b + c + (x + y) == (a + b) + (c + (x + y));
    assert a + b + c + (x + y) == a + (b + c + (x + y));
    assert a + b + c + (x + y) == (a + b + c + x) + y;
  }

  /** Closing the current entry moves its header and body bytes into
      the completed stream. */
  lemma CloseEntry(entries: seq<Entry>, e: Entry)
    ensures Stream(entries) + e.raw + e.body == Stream(entries + [e]) + [] + []
  {
    StreamSnoc(entries, e);
  }

  /** The ghost account of a scan: the completed entries, the current
      entry's decoder window, header bytes, body so far and destination,
      and all archive bytes accounted for so far. */
  datatype Scan = Scan(entries: seq<Entry>, window: seq<byte>, raw: seq<byte>,
                       body: seq<byte>, dest: Dest, past: seq<byte>)

  /** How one header phase of a scan pass ends: go round again for more
      bytes, stop, or go on to stream the current body. */
  datatype Phase = Retry | Halt(stop: Stop) | StreamOn

  /** What every completed entry of a scan satisfies: its header bytes
      are what the decoder accepted, it is not the trailer, its body has
      exactly the header's length, and its destination holds a prefix of
      the body (none at all when nothing is extracted). */
  ghost predicate GoodEntry(decode: Decoder, doExtract: bool, e: Entry) {
    decode(e.window) == Parsed(|e.raw|, e.header) && e.raw <= e.window &&
    !IsTrailer(e.header) &&
    |e.body| == e.header.st.size &&
    PersistedPrefix(e.dest, e.body) &&
    (!doExtract ==> e.dest.NotOpened?)
  }

  /** What extraction did with one entry: a destination exists exactly
      when extraction was asked for and the destination could be opened,
      and when every write to it is accepted in full it holds the whole
      body. */
  ghost predicate Extracted(doExtract: bool, opens: Header -> bool, allFull: bool,
                            h: Header, body: seq<byte>, d: Dest) {
    (d.NotOpened? <==> !(doExtract && opens(h))) &&
    (doExtract && opens(h) && allFull ==> d == Writing(body))
  }

  /** A completed entry that is good and whose destination is what
      extraction asked for. */
  ghost predicate Finished(decode: Decoder, doExtract: bool, opens: Header -> bool,
                           allFull: bool, e: Entry) {
    GoodEntry(decode, doExtract, e) && Extracted(doExtract, opens, allFull, e.header, e.body, e.dest)
  }

  /** Every entry of a run is finished, stated entry by entry from the
      last one back. */
  ghost predicate AllFinished(decode: Decoder, doExtract: bool, opens: Header -> bool,
                              allFull: bool, entries: seq<Entry>)
    decreases |entries|
  {
    entries == [] ||
    (AllFinished(decode, doExtract, opens, allFull, entries[..|entries| - 1]) &&
     Finished(decode, doExtract, opens, allFull, entries[|entries| - 1]))
  }

  lemma AllFinishedSnoc(decode: Decoder, doExtract: bool, opens: Header -> bool,
                        allFull: bool, entries: seq<Entry>, e: Entry)
    requires AllFinished(decode, doExtract, opens, allFull, entries)
    requires Finished(decode, doExtract, opens, allFull, e)
    ensures AllFinished(decode, doExtract, opens, allFull, entries + [e])
  {
    assert (entries + [e])[..|entries|] == entries;
  }

  /** `AllFinished` says that each entry is finished. */
  lemma {:induction false} AllFinishedEach(decode: Decoder, doExtract: bool, opens: Header -> bool,
                                           allFull: bool, entries: seq<Entry>)
    requires AllFinished(decode, doExtract, opens, allFull, entries)
    ensures forall e <- entries :: Finished(decode, doExtract, opens, allFull, e)
    decreases |entries|
  {
    if entries != [] {
      var init := entries[..|entries| - 1];
      AllFinishedEach(decode, doExtract, opens, allFull, init);
      assert entries == init + [entries[|entries| - 1]];
    }
  }

  /** Every completed entry's decoder window is archive bytes: the
      bytes right after the entries before it, as far as the buffer then
      reached.  Stated entry by entry from the last one back. */
  ghost predicate AllPlaced(entries: seq<Entry>, whole: seq<byte>)
    decreases |entries|
  {
    entries == [] ||
    (AllPlaced(entries[..|entries| - 1], whole) &&
     Stream(entries[..|entries| - 1]) + entries[|entries| - 1].window <= whole)
  }

  lemma AllPlacedSnoc(entries: seq<Entry>, e: Entry, whole: seq<byte>)
    requires AllPlaced(entries, whole)
    requires Stream(entries) + e.window <= whole
    ensures AllPlaced(entries + [e], whole)
  {
    assert (entries + [e])[..|entries|] == entries;
  }

  /** `AllPlaced` says that each entry's window follows the entries
      before it in the archive. */
  lemma {:induction false} AllPlacedEach(entries: seq<Entry>, whole: seq<byte>)
    requires AllPlaced(entries, whole)
    ensures forall i | 0 <= i < |entries| :: Stream(entries[..i]) + entries[i].window <= whole
    decreases |entries|
  {
    if entries != [] {
      var init := entries[..|entries| - 1];
      AllPlacedEach(init, whole);
      forall i | 0 <= i < |entries|
        ensures Stream(entries[..i]) + entries[i].window <= whole
      {
        if i < |init| {
          assert entries[..i] == init[..i];
          assert entries[i] == init[i];
        } else {
          assert entries[..i] == init;
        }
      }
    }
  }

  /** The scan's loop invariant.  The accounted bytes followed by the
      buffered and still unread ones are the whole archive; the
      accounted bytes are the completed entries followed by the current
      header and body so far; the current header is what the decoder
      accepted and is not the trailer; its destination holds the body
      so far (a prefix of it after a short write); the decoder's window
      for it is the archive bytes right after the completed entries; and
      every completed entry is good, with its window in place.  `strict` holds at the top of the loop, where the
      current body is never complete. */
  ghost predicate ScanInv(script: seq<Chunk>, decode: Decoder, doExtract: bool,
                          opens: Header -> bool, allFull: bool, cap: nat, held: seq<byte>,
                          src: seq<Chunk>, cur: Option<Header>, consumed: nat,
                          target: bool, dscript: seq<int>, g: Scan, strict: bool)
  {
    Bytes(script) == g.past + (held + Bytes(src)) &&
    g.past == Stream(g.entries) + g.raw + g.body &&
    (cur.None? ==> g.raw == [] && g.body == [] && !target) &&
    (cur.Some? ==>
       decode(g.window) == Parsed(|g.raw|, cur.value) && g.raw <= g.window &&
       Stream(g.entries) + g.window <= Bytes(script) &&
       !IsTrailer(cur.value) && consumed == |g.body| <= cur.value.st.size &&
       (strict ==> consumed < cur.value.st.size) &&
       PersistedPrefix(g.dest, g.body) && (target <==> g.dest.Writing?) &&
       Extracted(doExtract, opens, allFull, cur.value, g.body, g.dest)) &&
    (allFull ==> AllFull(dscript, cap)) &&
    AllFinished(decode, doExtract, opens, allFull, g.entries) &&
    AllPlaced(g.entries, Bytes(script))
  }

  /** A scan starts with nothing accounted and nothing buffered. */
  lemma StartScanInv(script: seq<Chunk>, decode: Decoder, doExtract: bool,
                     opens: Header -> bool, cap: nat, consumed: nat, dscript: seq<int>)
    ensures ScanInv(script, decode, doExtract, opens, AllFull(dscript, cap), cap, [], script, None, consumed,
                    false, dscript, Scan([], [], [], [], NotOpened, []), true)
  {
  }

  lemma RelaxScanInv(script: seq<Chunk>, decode: Decoder, doExtract: bool,
                     opens: Header -> bool, allFull: bool, cap: nat, held: seq<byte>,
                     src: seq<Chunk>, cur: Option<Header>, consumed: nat,
                     target: bool, dscript: seq<int>, g: Scan)
    requires ScanInv(script, decode, doExtract, opens, allFull, cap, held, src, cur, consumed, target, dscript, g, true)
    ensures ScanInv(script, decode, doExtract, opens, allFull, cap, held, src, cur, consumed, target, dscript, g, false)
  {
  }

  /** Moving bytes from the unread archive into the buffer keeps the
      invariant: only the split between buffered and unread changes. */
  lemma RefillScanInv(script: seq<Chunk>, decode: Decoder, doExtract: bool,
                      opens: Header -> bool, allFull: bool, cap: nat, held: seq<byte>,
                      src: seq<Chunk>, got: seq<byte>, src': seq<Chunk>, cur: Option<Header>,
                      consumed: nat, target: bool, dscript: seq<int>, g: Scan)
    requires ScanInv(script, decode, doExtract, opens, allFull, cap, held, src, cur, consumed, target, dscript, g, true)
    requires Bytes(src) == got + Bytes(src')
    ensures ScanInv(script, decode, doExtract, opens, allFull, cap, held + got, src', cur, consumed, target, dscript, g, true)
  {
    assert held + Bytes(src) == (held + got) + Bytes(src');
  }

  /** Under the invariant the completed entries account for a prefix of
      the archive. */
  lemma ScanInvPrefix(script: seq<Chunk>, decode: Decoder, doExtract: bool,
                      opens: Header -> bool, allFull: bool, cap: nat, held: seq<byte>,
                      src: seq<Chunk>, cur: Option<Header>, consumed: nat,
                      target: bool, dscript: seq<int>, g: Scan, strict: bool)
    requires ScanInv(script, decode, doExtract, opens, allFull, cap, held, src, cur, consumed, target, dscript, g, strict)
    ensures Stream(g.entries) <= Bytes(script)
  {
    AccountedPrefix(Stream(g.entries), g.raw, g.body, held, Bytes(src));
  }

  /** The entry a scan is in the middle of: the header bytes and body
      so far of the current header, or nothing when none is current. */
  function InProgress(g: Scan, cur: Option<Header>): Entry {
    Entry(g.window, g.raw, if cur.Some? then cur.value else Header(ZeroStat, None), g.body, g.dest)
  }

  /** At the top of a pass, the completed entries, the entry in
      progress, the buffered bytes and the unread rest make up the
      archive, and the entry in progress is either empty or a parsed,
      non-trailer header whose body is not yet complete. */
  lemma StopOnRead(script: seq<Chunk>, decode: Decoder, doExtract: bool,
                   opens: Header -> bool, allFull: bool, cap: nat, held: seq<byte>,
                   src: seq<Chunk>, cur: Option<Header>, consumed: nat,
                   target: bool, dscript: seq<int>, g: Scan)
    requires ScanInv(script, decode, doExtract, opens, allFull, cap, held, src, cur, consumed, target, dscript, g, true)
    ensures var last := InProgress(g, cur);
            Bytes(script) == Stream(g.entries) + last.raw + last.body + held + Bytes(src) &&
            ((last.raw == [] && last.body == []) ||
             (decode(last.window) == Parsed(|last.raw|, last.header) && last.raw <= last.window &&
              Stream(g.entries) + last.window <= Bytes(script) &&
              !IsTrailer(last.header) && |last.body| < last.header.st.size))
  {
    var s := Stream(g.entries);
    assert s + g.raw + g.body + (held + Bytes(src)) == s + g.raw + g.body + held + Bytes(src);
  }

  /** How a read loop refills its lookahead buffer.  `Blocks(bs)` is the
      xcpio loop: a buffer of four blocks, filled one block per read(2)
      while a whole block still fits below the last one.  `Fill(size)` is
      the cfgstore loop: a fixed buffer, each read(2) asking for all the
      room that is left. */
  datatype Policy = Blocks(bs: nat) | Fill(size: nat)

  predicate ValidPolicy(p: Policy) {
    match p
    case Blocks(bs) => bs > 0
    case Fill(size) => size > 0
  }

  /** The size of the lookahead buffer. */
  function Capacity(p: Policy): (n: nat)
    ensures ValidPolicy(p) ==> n > 0
  {
    match p
    case Blocks(bs) => 4 * bs
    case Fill(size) => size
  }

  /** Whether a pass reads from the archive with `len` bytes buffered:
      `buf_len < buf_size - block_size` and `buf_len < 1024`. */
  predicate ReadsMore(p: Policy, len: nat) {
    match p
    case Blocks(bs) => len < 3 * bs
    case Fill(size) => len < size
  }

  /** Whenever a pass reads, the buffer is not full. */
  lemma ReadsMoreFits(p: Policy, len: nat)
    requires ReadsMore(p, len)
    ensures len < Capacity(p)
  {
  }

  /** How many bytes that read asks for. */
  function ReadSize(p: Policy, len: nat): (n: nat)
    requires ValidPolicy(p) && ReadsMore(p, len)
    ensures 0 < n && len + n <= Capacity(p)
  {
    match p
    case Blocks(bs) => bs
    case Fill(size) => size - len
  }

  /** After a pass that went on with header `h`, parsed from window
      `w`: that entry is either still the current one, or its body is
      complete and it is the next completed entry. */
  ghost predicate EntryBegun(g: Scan, g': Scan, cur': Option<Header>, w: seq<byte>, h: Header) {
    if cur'.Some? then cur' == Some(h) && g'.entries == g.entries && g'.window == w
    else |g'.entries| == |g.entries| + 1 && g'.entries[..|g.entries|] == g.entries &&
         g'.entries[|g.entries|].window == w && g'.entries[|g.entries|].header == h
  }

  /** Whether the read at the top of a pass, with `held` bytes
      buffered, lets the pass go on: either no read is due, or it
      returned data. */
  predicate ReadGoesOn(p: Policy, held: nat, src: seq<Chunk>)
    requires ValidPolicy(p)
  {
    !ReadsMore(p, held) || Read(src, ReadSize(p, held)).r > 0
  }

  /** The buffered bytes once the read at the top of a pass has been
      made: the read's bytes follow the held ones when a read is due. */
  function Topped(p: Policy, held: seq<byte>, src: seq<Chunk>): seq<byte>
    requires ValidPolicy(p)
  {
    if ReadsMore(p, |held|) then held + Read(src, ReadSize(p, |held|)).got else held
  }

  /** How the decoder's answer on `w`, the buffer with no current
      header, decides a pass: an error stops it with 0; "need more"
      goes round again while a further read is due and otherwise
      refuses the header; a parsed trailer stops it with 0, and any
      other parsed header has its body streamed. */
  ghost predicate Decides(decode: Decoder, p: Policy, w: seq<byte>, phase: Phase) {
    (phase == Halt(DecodeFailed) <==> decode(w).DecodeError?) &&
    (phase == Retry <==> decode(w).NeedMore? && ReadsMore(p, |w|)) &&
    (phase == Halt(HeaderTooLong) <==> decode(w).NeedMore? && !ReadsMore(p, |w|)) &&
    (phase == Halt(AtTrailer) <==> decode(w).Parsed? && IsTrailer(decode(w).header)) &&
    (phase == StreamOn <==> decode(w).Parsed? && !IsTrailer(decode(w).header))
  }

  /** What the archive still has to give once the read at the top of
      a pass has been made. */
  function Unread(p: Policy, held: nat, src: seq<Chunk>): seq<Chunk>
    requires ValidPolicy(p)
  {
    if ReadsMore(p, held) then Read(src, ReadSize(p, held)).rest else src
  }

  /** Where a scan stopped: `last` is the entry being read (the trailer,
      the refused bytes, or the entry in progress when a read stopped
      the scan), `held` the bytes in the buffer before the read that
      stopped it and `rest` what the archive still had to give then. */
  datatype Ending = Ending(last: Entry, held: seq<byte>, rest: seq<Chunk>)

  /** What is known when a scan stops: the completed entries account
      for a prefix of the archive; at the trailer, the trailer header
      was parsed from the bytes right after them; at a decoder error, the
      decoder refused the bytes right after them; when a header would
      not fit, the decoder asked for more once no further read was
      possible.  Each such window is the archive bytes right after the
      completed entries.  When a read stopped the scan, the completed entries,
      the header and body part of the entry in progress, the buffered
      bytes and the unread rest make up the whole archive, a read was
      due with that many bytes buffered, and the read of the rest
      returned 0 (end of file) or a negative count (an error). */
  ghost predicate Halted(script: seq<Chunk>, decode: Decoder, p: Policy, stop: Stop,
                         entries: seq<Entry>, end: Ending)
  {
    var last := end.last;
    Stream(entries) <= Bytes(script) &&
    (stop.AtTrailer? ==>
       decode(last.window) == Parsed(|last.raw|, last.header) && IsTrailer(last.header) &&
       last.raw <= last.window && Stream(entries) + last.window <= Bytes(script)) &&
    (stop.DecodeFailed? ==>
       decode(last.window) == DecodeError && Stream(entries) + last.window <= Bytes(script)) &&
    (stop.HeaderTooLong? ==>
       decode(last.window) == NeedMore && !ReadsMore(p, |last.window|) &&
       Stream(entries) + last.window <= Bytes(script)) &&
    (stop.EndOfInput? || stop.ReadFailed? ==>
       Bytes(script) == Stream(entries) + last.raw + last.body + end.held + Bytes(end.rest) &&
       ((last.raw == [] && last.body == []) ||
        (decode(last.window) == Parsed(|last.raw|, last.header) && last.raw <= last.window &&
         Stream(entries) + last.window <= Bytes(script) &&
         !IsTrailer(last.header) && |last.body| < last.header.st.size)) &&
       ValidPolicy(p) && ReadsMore(p, |end.held|) &&
       (stop.EndOfInput? ==> Read(end.rest, ReadSize(p, |end.held|)).r == 0) &&
       (stop.ReadFailed? ==> Read(end.rest, ReadSize(p, |end.held|)).r < 0))
  }

  /** read(fd, buf + len, n): appends the next read result to the
      buffered bytes. */
  method ReadInto(buf: array<byte>, len: nat, n: nat, src: seq<Chunk>)
    returns (r: int, len': nat, rest: seq<Chunk>)
    requires n > 0 && len + n <= buf.Length
    modifies buf
    ensures r == Read(src, n).r
    ensures r <= 0 ==> len' == len && rest == src
    ensures r > 0 ==> len' == len + r && rest == Read(src, n).rest &&
                      buf[..len'] == old(buf[..len]) + Read(src, n).got
  {
    var res := Read(src, n);
    r := res.r;
    if r <= 0 {
      return r, len, src;
    }
    Mem.CopyIn(buf, len, res.got);
    assert buf[..len + r] == buf[..len] + buf[len..len + r];
    len', rest := len + r, res.rest;
  }
}
