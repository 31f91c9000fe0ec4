/** The scan shared by both read loops: the `read` part of the archive
    handle (the current header and how much of its body has gone by) and
    the steps of one pass of the loop, which alternates between looking
    for a header in the lookahead buffer and streaming the current body
    out of it. */
module Scanner {
  import opened CpioTypes
  import opened ArchiveIo
  import opened Lookahead
  import Mem

  /** The `read` member of `struct cpio_archive`: `read.c` and
      `read.consumed_bytes`. */
  class ReadState {
    var current: Option<Header>
    var consumedBytes: nat

    constructor ()
      ensures current.None? && consumedBytes == 0
    {
      current := None;
      consumedBytes := 0;
    }

  /** The body half of one pass of the `cpio_archive_begin_read` loop:
      `cr = MIN(st_size - consumed_bytes, buf_len)` bytes are written to
      the destination (when one is open), dropped from the front of the
      buffer and counted; the header is released once the whole body has
      gone by.  A short or failed write closes the destination. */
  method StreamBody(buf: array<byte>, bufLen: nat, target: bool, dscript: seq<int>, ghost dest: Dest)
    returns (bufLen': nat, target': bool, dscript': seq<int>, ghost chunk: seq<byte>, ghost dest': Dest)
    requires current.Some? && consumedBytes <= current.value.st.size && bufLen <= buf.Length
    requires target <==> dest.Writing?
    modifies this, buf
    ensures |chunk| == BodyTake(old(current).value.st.size, old(consumedBytes), bufLen)
    ensures bufLen' <= bufLen
    ensures old(buf[..bufLen]) == chunk + buf[..bufLen']
    ensures consumedBytes == old(consumedBytes) + |chunk|
    ensures dest' == Deliver(dest, chunk, WriteResult(dscript, |chunk|))
    ensures dscript' == if target then Tail(dscript) else dscript
    ensures consumedBytes == old(current).value.st.size ==> current.None? && !target'
    ensures consumedBytes != old(current).value.st.size ==>
              current == old(current) && (target' <==> dest'.Writing?)
  {
    var size := current.value.st.size;
    var cr := BodyTake(size, consumedBytes, bufLen);
    chunk := buf[..cr];
    target', dscript', dest' := target, dscript, dest;
    if target {
      var wr := WriteResult(dscript, cr);
      dscript' := Tail(dscript);
      dest' := Deliver(dest, chunk, wr);
      if wr != cr {
        target' := false;
      }
    }
    assert buf[..bufLen] == chunk + buf[cr..bufLen];
    Mem.Discard(buf, bufLen, cr);
    bufLen' := bufLen - cr;
    consumedBytes := consumedBytes + cr;
    if consumedBytes == size {
      current := None;
      target' := false;
    }
  }

  /** A header the decoder accepted: it is consumed from the front of
      the buffer and becomes the current header; the trailer stops the
      scan with 0, any other header has its destination opened when
      extracting. */
  method AcceptHeader(script: seq<Chunk>, decode: Decoder, doExtract: bool, opens: Header -> bool,
                      ghost allFull: bool, buf: array<byte>, bufLen: nat, p: Policy,
                      src: seq<Chunk>, dscript: seq<int>, ghost g: Scan)
    returns (phase: Phase, rv: int, bufLen': nat, target': bool, ghost g': Scan, ghost end: Ending)
    requires DecoderContract(decode)
    requires bufLen <= buf.Length && current.None? && decode(buf[..bufLen]).Parsed?
    requires ScanInv(script, decode, doExtract, opens, allFull, buf.Length, buf[..bufLen], src, current, consumedBytes, false, dscript, g, true)
    modifies this, buf
    ensures phase == Halt(AtTrailer) || phase == StreamOn
    ensures phase == Halt(AtTrailer) <==> IsTrailer(decode(old(buf[..bufLen])).header)
    ensures current == Some(decode(old(buf[..bufLen])).header)
    ensures phase.Halt? ==>
              rv == 0 && g'.entries == g.entries && Halted(script, decode, p, AtTrailer, g.entries, end) &&
              end.last.window == old(buf[..bufLen])
    ensures phase.StreamOn? ==>
              bufLen' < bufLen &&
              g'.window == old(buf[..bufLen]) && g'.entries == g.entries &&
              old(buf[..bufLen]) == g'.raw + buf[..bufLen'] &&
              ScanInv(script, decode, doExtract, opens, allFull, buf.Length, buf[..bufLen'], src, current, consumedBytes, target', dscript, g', false) &&
              current.Some?
  {
    var d := decode(buf[..bufLen]);
    bufLen', target', g' := bufLen, false, g;
    end := Ending(Entry([], [], Header(ZeroStat, None), [], NotOpened), [], []);
    rv := 0;
    ghost var window := buf[..bufLen];
    ghost var taken := buf[..d.consumed];
    assert window == taken + buf[d.consumed..bufLen];
    Mem.Discard(buf, bufLen, d.consumed);
    bufLen' := bufLen - d.consumed;
    TakeFront(g.past, window, taken, buf[..bufLen'], Bytes(src));
    StartEntry(Stream(g.entries), taken);
    AccountedPrefix(Stream(g.entries), [], [], window, Bytes(src));
    NoEntry(Stream(g.entries));
    current := Some(d.header);
    consumedBytes := 0;
    if IsTrailer(d.header) {
      end := Ending(Entry(window, taken, d.header, [], NotOpened), [], []);
      return Halt(AtTrailer), rv, bufLen', target', g', end;
    }
    ghost var dest := NotOpened;
    if doExtract && opens(d.header) {
      target', dest := true, Writing([]);
    }
    g' := Scan(g.entries, window, taken, [], dest, g.past + taken);
    phase := StreamOn;
  }

  /** The header half of one pass of the `cpio_archive_begin_read`
      loop, once the block has been read: with no current header, ask
      the decoder for one.  A decoder error stops the scan with 0; too
      few bytes retry while another block fits and otherwise stop with
      -1; a parsed header is consumed from the buffer and, unless it is
      the trailer (which stops the scan with 0), its destination is
      opened when extracting. */
  method TakeHeader(script: seq<Chunk>, decode: Decoder, doExtract: bool, opens: Header -> bool,
                    ghost allFull: bool, buf: array<byte>, bufLen: nat, p: Policy,
                    src: seq<Chunk>, dscript: seq<int>, ghost g: Scan)
    returns (phase: Phase, rv: int, bufLen': nat, target': bool, ghost g': Scan, ghost end: Ending)
    requires DecoderContract(decode)
    requires ValidPolicy(p) && buf.Length == Capacity(p) && current.None?
    requires bufLen <= buf.Length
    requires ScanInv(script, decode, doExtract, opens, allFull, buf.Length, buf[..bufLen], src, current, consumedBytes, false, dscript, g, true)
    modifies this, buf
    ensures phase.Halt? ==>
              rv == Retval(phase.stop) && g'.entries == g.entries &&
              Halted(script, decode, p, phase.stop, g.entries, end) &&
              end.last.window == old(buf[..bufLen])
    ensures Decides(decode, p, old(buf[..bufLen]), phase)
    ensures phase.Retry? ==>
              bufLen' == bufLen && ReadsMore(p, bufLen) && decode(buf[..bufLen']) == NeedMore &&
              ScanInv(script, decode, doExtract, opens, allFull, buf.Length, buf[..bufLen'], src, current, consumedBytes, target', dscript, g', true)
    ensures phase.StreamOn? ==>
              bufLen' <= buf.Length &&
              ScanInv(script, decode, doExtract, opens, allFull, buf.Length, buf[..bufLen'], src, current, consumedBytes, target', dscript, g', false) &&
              current == Some(decode(old(buf[..bufLen])).header) && bufLen' < bufLen &&
              g'.window == old(buf[..bufLen]) && g'.entries == g.entries &&
              old(buf[..bufLen]) == g'.raw + buf[..bufLen']
  {
    bufLen', target', g' := bufLen, false, g;
    end := Ending(Entry([], [], Header(ZeroStat, None), [], NotOpened), [], []);
    rv := 0;
    AccountedPrefix(Stream(g.entries), g.raw, g.body, buf[..bufLen], Bytes(src));
    var d := decode(buf[..bufLen']);
    if d.DecodeError? {
      end := Ending(Entry(buf[..bufLen'], [], Header(ZeroStat, None), [], NotOpened), [], []);
      NoEntry(Stream(g.entries));
      return Halt(DecodeFailed), rv, bufLen', target', g', end;
    }
    if d.NeedMore? {
      if ReadsMore(p, bufLen') {
        return Retry, rv, bufLen', target', g', end;
      }
      end := Ending(Entry(buf[..bufLen'], [], Header(ZeroStat, None), [], NotOpened), [], []);
      NoEntry(Stream(g.entries));
      return Halt(HeaderTooLong), -1, bufLen', target', g', end;
    }
    phase, rv, bufLen', target', g', end :=
      AcceptHeader(script, decode, doExtract, opens, allFull, buf, bufLen, p, src, dscript, g);
  }

  /** The read at the top of a pass: while one is due, one read(2)
      appended to the buffer.  Data keeps the invariant with the bytes
      moved from the unread archive into the buffer; end of file or an
      error stops the scan, with the entry in progress, the buffered
      bytes and the unread rest accounting for the whole archive. */
  method Refill(script: seq<Chunk>, decode: Decoder, doExtract: bool, opens: Header -> bool,
                ghost allFull: bool, buf: array<byte>, bufLen: nat, p: Policy,
                src: seq<Chunk>, target: bool, dscript: seq<int>, ghost g: Scan)
    returns (ok: bool, stop: Stop, bufLen': nat, src': seq<Chunk>, ghost end: Ending)
    requires ValidPolicy(p) && buf.Length == Capacity(p) && bufLen <= buf.Length
    requires ScanInv(script, decode, doExtract, opens, allFull, buf.Length, buf[..bufLen], src, current, consumedBytes, target, dscript, g, true)
    modifies buf
    ensures ok <==> ReadGoesOn(p, bufLen, src)
    ensures !ok ==>
              (stop == EndOfInput <==> Read(src, ReadSize(p, bufLen)).r == 0) &&
              (stop == EndOfInput || stop == ReadFailed) &&
              Halted(script, decode, p, stop, g.entries, end)
    ensures ok ==>
              bufLen' <= buf.Length && (ReadsMore(p, bufLen) ==> Size(src') < Size(src)) &&
              buf[..bufLen'] == Topped(p, old(buf[..bufLen]), src) && src' == Unread(p, bufLen, src) &&
              ScanInv(script, decode, doExtract, opens, allFull, buf.Length, buf[..bufLen'], src', current, consumedBytes, target, dscript, g, true)
  {
    ghost var held := buf[..bufLen];
    stop := EndOfInput;
    end := Ending(InProgress(g, current), held, src);
    if !ReadsMore(p, bufLen) {
      return true, stop, bufLen, src, end;
    }
    ScanInvPrefix(script, decode, doExtract, opens, allFull, buf.Length, held, src, current, consumedBytes, target, dscript, g, true);
    var r;
    r, bufLen', src' := ReadInto(buf, bufLen, ReadSize(p, bufLen), src);
    if r <= 0 {
      StopOnRead(script, decode, doExtract, opens, allFull, buf.Length, held, src, current, consumedBytes, target, dscript, g);
      if r < 0 {
        stop := ReadFailed;
      }
      return false, stop, bufLen', src', end;
    }
    RefillScanInv(script, decode, doExtract, opens, allFull, buf.Length, held, src, Read(src, ReadSize(p, bufLen)).got, src', current, consumedBytes, target, dscript, g);
    ok := true;
  }

  /** The header half of one pass once the read at its top is made:
      with a current header the pass goes on to stream its body;
      without one, the decoder's answer on the buffered bytes decides
      the pass. */
  method Examine(script: seq<Chunk>, decode: Decoder, doExtract: bool, opens: Header -> bool,
                 ghost allFull: bool, buf: array<byte>, bufLen: nat, p: Policy,
                 src: seq<Chunk>, target: bool, dscript: seq<int>, ghost g: Scan)
    returns (phase: Phase, rv: int, bufLen': nat, target': bool, ghost g': Scan, ghost end: Ending)
    requires DecoderContract(decode)
    requires ValidPolicy(p) && buf.Length == Capacity(p) && bufLen <= buf.Length
    requires ScanInv(script, decode, doExtract, opens, allFull, buf.Length, buf[..bufLen], src, current, consumedBytes, target, dscript, g, true)
    modifies this, buf
    ensures phase.Halt? ==>
              rv == Retval(phase.stop) && g'.entries == g.entries &&
              Halted(script, decode, p, phase.stop, g.entries, end) &&
              end.last.window == old(buf[..bufLen])
    ensures phase != Halt(EndOfInput) && phase != Halt(ReadFailed)
    ensures old(current).Some? ==> phase.StreamOn? && current == old(current) && g' == g
    ensures old(current).None? ==>
              Decides(decode, p, old(buf[..bufLen]), phase) &&
              (phase.StreamOn? ==>
                 g'.window == old(buf[..bufLen]) && g'.entries == g.entries &&
                 current == Some(decode(old(buf[..bufLen])).header))
    ensures !phase.Halt? ==> bufLen' <= buf.Length
    ensures phase.Retry? ==>
              bufLen' == bufLen && ReadsMore(p, bufLen') && decode(buf[..bufLen']) == NeedMore &&
              ScanInv(script, decode, doExtract, opens, allFull, buf.Length, buf[..bufLen'], src, current, consumedBytes, target', dscript, g', true)
    ensures phase.StreamOn? ==>
              ScanInv(script, decode, doExtract, opens, allFull, buf.Length, buf[..bufLen'], src, current, consumedBytes, target', dscript, g', false) &&
              current.Some? && (bufLen' < buf.Length || consumedBytes < current.value.st.size) &&
              (bufLen' < bufLen || (bufLen' == bufLen && consumedBytes < current.value.st.size))
  {
    bufLen', target', g' := bufLen, target, g;
    end := Ending(Entry([], [], Header(ZeroStat, None), [], NotOpened), [], []);
    rv := 0;
    if current.Some? {
      RelaxScanInv(script, decode, doExtract, opens, allFull, buf.Length, buf[..bufLen], src, current, consumedBytes, target, dscript, g);
      return StreamOn, rv, bufLen', target', g', end;
    }
    phase, rv, bufLen', target', g', end :=
      TakeHeader(script, decode, doExtract, opens, allFull, buf, bufLen, p, src, dscript, g);
  }

  /** The header half of one pass of the `cpio_archive_begin_read`
      loop: read one block while a whole block still fits (an error or
      end of file stops the scan with -1), then look for a header when
      none is current.  The pass stops at end of file, or on a read
      error, exactly when it reads and read(2) says so. */
  method NextHeader(script: seq<Chunk>, decode: Decoder, doExtract: bool, opens: Header -> bool,
                    ghost allFull: bool, buf: array<byte>, bufLen: nat, p: Policy,
                    src: seq<Chunk>, target: bool, dscript: seq<int>, ghost g: Scan)
    returns (phase: Phase, rv: int, bufLen': nat, src': seq<Chunk>, target': bool,
             ghost g': Scan, ghost end: Ending)
    requires DecoderContract(decode)
    requires ValidPolicy(p) && buf.Length == Capacity(p) && bufLen <= buf.Length
    requires ScanInv(script, decode, doExtract, opens, allFull, buf.Length, buf[..bufLen], src, current, consumedBytes, target, dscript, g, true)
    modifies this, buf
    ensures phase.Halt? ==>
              rv == Retval(phase.stop) && g'.entries == g.entries &&
              Halted(script, decode, p, phase.stop, g.entries, end)
    ensures phase == Halt(EndOfInput) <==> ReadsMore(p, bufLen) && Read(src, ReadSize(p, bufLen)).r == 0
    ensures phase == Halt(ReadFailed) <==> ReadsMore(p, bufLen) && Read(src, ReadSize(p, bufLen)).r < 0
    ensures !phase.Halt? ==> bufLen' <= buf.Length && src' == Unread(p, bufLen, src)
    ensures ReadGoesOn(p, bufLen, src) && old(current).Some? ==>
              phase.StreamOn? && current == old(current) && g' == g
    ensures ReadGoesOn(p, bufLen, src) && old(current).None? ==>
              Decides(decode, p, Topped(p, old(buf[..bufLen]), src), phase) &&
              (phase.Halt? ==> end.last.window == Topped(p, old(buf[..bufLen]), src)) &&
              (phase.StreamOn? ==>
                 g'.window == Topped(p, old(buf[..bufLen]), src) && g'.entries == g.entries &&
                 current == Some(decode(Topped(p, old(buf[..bufLen]), src)).header))
    ensures phase.Retry? ==>
              ReadsMore(p, bufLen') && decode(buf[..bufLen']) == NeedMore &&
              ScanInv(script, decode, doExtract, opens, allFull, buf.Length, buf[..bufLen'], src', current, consumedBytes, target', dscript, g', true) &&
              Size(src') < Size(src)
    ensures phase.StreamOn? ==>
              ScanInv(script, decode, doExtract, opens, allFull, buf.Length, buf[..bufLen'], src', current, consumedBytes, target', dscript, g', false) &&
              current.Some? && (bufLen' < buf.Length || consumedBytes < current.value.st.size) &&
              (Size(src') < Size(src) ||
               (src' == src && (bufLen' < bufLen ||
                (bufLen' == bufLen && bufLen > 0 && consumedBytes < current.value.st.size))))
  {
    var ok, stop, held;
    ok, stop, held, src', end := Refill(script, decode, doExtract, opens, allFull, buf, bufLen, p, src, target, dscript, g);
    if !ok {
      return Halt(stop), -1, held, src', target, g, end;
    }
    phase, rv, bufLen', target', g', end :=
      Examine(script, decode, doExtract, opens, allFull, buf, held, p, src', target, dscript, g);
  }

  /** The body half of one pass of the scan, with its accounting: the
      streamed bytes join the current body, and an entry whose body is
      complete joins the completed entries. */
  method NextBody(script: seq<Chunk>, decode: Decoder, doExtract: bool, opens: Header -> bool,
                  ghost allFull: bool, buf: array<byte>, bufLen: nat,
                  src: seq<Chunk>, target: bool, dscript: seq<int>, ghost g: Scan)
    returns (bufLen': nat, target': bool, dscript': seq<int>, ghost g': Scan)
    requires current.Some?
    requires bufLen <= buf.Length
    requires ScanInv(script, decode, doExtract, opens, allFull, buf.Length, buf[..bufLen], src, current, consumedBytes, target, dscript, g, false)
    modifies this, buf
    ensures bufLen' <= buf.Length
    ensures ScanInv(script, decode, doExtract, opens, allFull, buf.Length, buf[..bufLen'], src, current, consumedBytes, target', dscript', g', true)
    ensures bufLen' <= bufLen
    ensures bufLen > 0 && old(consumedBytes) < old(current).value.st.size ==> bufLen' < bufLen
    ensures EntryBegun(g, g', current, g.window, old(current).value)
  {
    var hdr := current.value;
    ghost var held := buf[..bufLen];
    ghost var cr := BodyTake(hdr.st.size, consumedBytes, bufLen);
    DeliverKeepsPrefix(g.dest, g.body, held[..cr], WriteResult(dscript, cr));
    if allFull {
      AllFullTail(dscript, buf.Length);
    }
    ghost var chunk, dest;
    bufLen', target', dscript', chunk, dest := StreamBody(buf, bufLen, target, dscript, g.dest);
    TakeFront(g.past, held, chunk, buf[..bufLen'], Bytes(src));
    GrowBody(Stream(g.entries), g.raw, g.body, chunk);
    g' := Scan(g.entries, g.window, g.raw, g.body + chunk, dest, g.past + chunk);
    if current.None? {
      ghost var e := Entry(g.window, g.raw, hdr, g'.body, dest);
      assert GoodEntry(decode, doExtract, e);
      assert Extracted(doExtract, opens, allFull, e.header, e.body, e.dest);
      AllFinishedSnoc(decode, doExtract, opens, allFull, g.entries, e);
      AllPlacedSnoc(g.entries, e, Bytes(script));
      CloseEntry(g.entries, e);
      g' := Scan(g.entries + [e], [], [], [], NotOpened, g'.past);
      assert g'.entries[..|g.entries|] == g.entries;
    }
  }

  /** One pass of the `cpio_archive_begin_read` loop: the header half,
      then (unless the scan stops or goes round for more bytes) the body
      half.  A pass that does not stop keeps the invariant and either
      reads from the archive or shrinks the buffer.  It stops at end of
      file, or on a read error, exactly when it reads and read(2) says
      so.  Otherwise, with a current header it streams that header's
      body; without one, the decoder's answer on the buffer as the read
      left it decides the pass (`Decides`), and an accepted header's
      entry begins with that buffer as its window. */
  method ScanPass(script: seq<Chunk>, decode: Decoder, doExtract: bool, opens: Header -> bool,
                  ghost allFull: bool, buf: array<byte>, bufLen: nat, p: Policy,
                  src: seq<Chunk>, target: bool, dscript: seq<int>, ghost g: Scan)
    returns (phase: Phase, rv: int, bufLen': nat, src': seq<Chunk>, target': bool, dscript': seq<int>,
             ghost g': Scan, ghost end: Ending)
    requires DecoderContract(decode)
    requires ValidPolicy(p) && buf.Length == Capacity(p) && bufLen <= buf.Length
    requires ScanInv(script, decode, doExtract, opens, allFull, buf.Length, buf[..bufLen], src, current, consumedBytes, target, dscript, g, true)
    modifies this, buf
    ensures phase.Halt? ==>
              rv == Retval(phase.stop) && g'.entries == g.entries &&
              Halted(script, decode, p, phase.stop, g'.entries, end)
    ensures phase == Halt(EndOfInput) <==> ReadsMore(p, bufLen) && Read(src, ReadSize(p, bufLen)).r == 0
    ensures phase == Halt(ReadFailed) <==> ReadsMore(p, bufLen) && Read(src, ReadSize(p, bufLen)).r < 0
    ensures !phase.Halt? ==> src' == Unread(p, bufLen, src)
    ensures ReadGoesOn(p, bufLen, src) && old(current).Some? ==>
              phase.StreamOn? && EntryBegun(g, g', current, g.window, old(current).value)
    ensures ReadGoesOn(p, bufLen, src) && old(current).None? ==>
              Decides(decode, p, Topped(p, old(buf[..bufLen]), src), phase) &&
              (phase.Halt? ==> end.last.window == Topped(p, old(buf[..bufLen]), src)) &&
              (phase.StreamOn? ==>
                 EntryBegun(g, g', current, Topped(p, old(buf[..bufLen]), src),
                            decode(Topped(p, old(buf[..bufLen]), src)).header))
    ensures !phase.Halt? ==>
              bufLen' < buf.Length &&
              ScanInv(script, decode, doExtract, opens, allFull, buf.Length, buf[..bufLen'], src', current, consumedBytes, target', dscript', g', true) &&
              (Size(src') < Size(src) || (Size(src') == Size(src) && bufLen' < bufLen))
  {
    dscript' := dscript;
    phase, rv, bufLen', src', target', g', end :=
      NextHeader(script, decode, doExtract, opens, allFull, buf, bufLen, p, src, target, dscript, g);
    if phase.Retry? {
      ReadsMoreFits(p, bufLen');
    }
    if phase.StreamOn? {
      ghost var g1, hdr := g', current.value;
      bufLen', target', dscript', g' :=
        NextBody(script, decode, doExtract, opens, allFull, buf, bufLen', src', target', dscript, g');
      assert EntryBegun(g1, g', current, g1.window, hdr);
    }
  }

  }
}
