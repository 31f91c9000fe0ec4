/** Both read loops read before they decode: every pass starts with a
    read(2) while one is due, and a read that finds end of file stops
    the scan with -1, whatever the buffer already holds.  The run below
    shows it on an archive of two empty files that arrives in one read:
    the second header is in the buffer when the scan gives up. */
module ReadOrder {
  import opened CpioTypes
  import opened ArchiveIo
  import opened Lookahead
  import opened Scanner

  /** A decoder that takes the first 80 bytes as the header of an empty
      file named "a" once that many are buffered, and asks for more
      before. */
  function Accept80(s: seq<byte>): (d: Decoded)
    ensures |s| >= 80 ==> d.Parsed? && d.consumed == 80 && !IsTrailer(d.header)
  {
    if |s| >= 80 then Parsed(80, Header(ZeroStat, Some("a"))) else NeedMore
  }

  /** A listing scan opens no file. */
  predicate NoneOpened(h: Header) {
    false
  }

  /** The first pass over a single 160-byte chunk goes on with the
      header the decoder finds in those bytes, and as that header's body
      is empty the entry is complete when the pass ends. */
  lemma FirstPassTakesEntry(z: seq<byte>, first: Phase, g: Scan, cur: Option<Header>,
                            consumed: nat, held: seq<byte>, target: bool, dscript: seq<int>, allFull: bool)
    requires |z| == 160
    requires Decides(Accept80, Blocks(512), z, first)
    requires !first.Halt? ==>
               ScanInv([Data(z)], Accept80, false, NoneOpened, allFull, Capacity(Blocks(512)), held, [],
                       cur, consumed, target, dscript, g, true)
    ensures first == StreamOn && cur.None?
  {
    assert Accept80(z) == Parsed(80, Header(ZeroStat, Some("a")));
  }

  /** After that pass one entry is complete, parsed from all 160 bytes,
      and the 80 bytes after it are what stays buffered. */
  lemma {:induction false} FirstPassLeaves(z: seq<byte>, g: Scan, consumed: nat, held: seq<byte>,
                                           target: bool, dscript: seq<int>, allFull: bool)
    requires |z| == 160
    requires EntryBegun(Scan([], [], [], [], NotOpened, []), g, None, z, Accept80(z).header)
    requires ScanInv([Data(z)], Accept80, false, NoneOpened, allFull, Capacity(Blocks(512)), held, [],
                     None, consumed, target, dscript, g, true)
    ensures |g.entries| == 1 && z == Stream(g.entries) + held && |held| == 80
  {
    assert Bytes([Data(z)]) == z;
    assert z == Stream(g.entries) + held by {
      assert Bytes([]) == [];
    }
    ghost var e := g.entries[0];
    assert Finished(Accept80, false, NoneOpened, allFull, e) by {
      AllFinishedEach(Accept80, false, NoneOpened, allFull, g.entries);
    }
    assert Stream(g.entries) == e.raw + e.body by {
      assert g.entries == [e];
      assert Stream(g.entries) == Stream([]) + e.raw + e.body;
    }
  }

  /** The first pass of the xcpio scan (512-byte blocks, listing only)
      over a single 160-byte chunk. */
  method FirstPass(z: seq<byte>)
    returns (first: Phase, st: ReadState, buf: array<byte>, bufLen: nat, src: seq<Chunk>,
             target: bool, dscript: seq<int>, ghost allFull: bool, ghost g: Scan)
    requires |z| == 160
    ensures fresh(st) && fresh(buf)
    ensures first == StreamOn
    ensures buf.Length == Capacity(Blocks(512)) && bufLen == 80 && src == [] && st.current.None?
    ensures |g.entries| == 1 && z == Stream(g.entries) + buf[..bufLen]
    ensures ScanInv([Data(z)], Accept80, false, NoneOpened, allFull, buf.Length, buf[..bufLen], src,
                    st.current, st.consumedBytes, target, dscript, g, true)
  {
    var script := [Data(z)];
    var p := Blocks(512);
    buf := new byte[Capacity(p)];
    st := new ReadState();
    allFull := AllFull([], buf.Length);
    g := Scan([], [], [], [], NotOpened, []);
    assert buf[..0] == [];
    StartScanInv(script, Accept80, false, NoneOpened, buf.Length, st.consumedBytes, []);
    var rv;
    ghost var end;
    assert Bytes(script) == z;
    assert Read(script, 512) == ReadResult(160, z, []);
    assert Topped(p, [], script) == z;
    first, rv, bufLen, src, target, dscript, g, end :=
      st.ScanPass(script, Accept80, false, NoneOpened, allFull, buf, 0, p, script, false, [], g);
    FirstPassTakesEntry(z, first, g, st.current, st.consumedBytes, buf[..bufLen], target, dscript, allFull);
    FirstPassLeaves(z, g, st.consumedBytes, buf[..bufLen], target, dscript, allFull);
  }

  /** The first two passes of the same scan.  The second pass reads
      again, finds end of file and stops with -1, although the 80 bytes
      still buffered hold a header the decoder accepts. */
  method TwoEmptyFilesOneRead(z: seq<byte>) returns (first: Phase, second: Phase, rv: int,
                                                     ghost entries: seq<Entry>, ghost left: seq<byte>)
    requires |z| == 160
    ensures first == StreamOn
    ensures second == Halt(EndOfInput) && rv == -1
    ensures |entries| == 1 && Stream(entries) + left == z
    ensures Accept80(left).Parsed? && !IsTrailer(Accept80(left).header)
  {
    var st, buf, bufLen, src, target, dscript;
    ghost var allFull, g, end;
    first, st, buf, bufLen, src, target, dscript, allFull, g := FirstPass(z);
    entries, left := g.entries, buf[..bufLen];
    second, rv, bufLen, src, target, dscript, g, end :=
      st.ScanPass([Data(z)], Accept80, false, NoneOpened, allFull, buf, bufLen, Blocks(512), src, target, dscript, g);
  }
}
