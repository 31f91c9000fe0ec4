/** The cfgstore archive engine: open and close (which writes the
    trailer through the debugging serialiser), the base directory, the
    manifest stub, and the read-side scan loop over a fixed 1024-byte
    buffer. */
module CfgArchive {
  import opened CpioTypes
  import opened ArchiveIo
  import opened Lookahead
  import opened Scanner
  import opened CfgFormat

  /** The size of the read loop's stack buffer. */
  const ReadBufSize: nat := 1024

  /** The trailer header `cpio_archive_close` creates. */
  const Trailer: Header := Header(ZeroStat, Some(TrailerName))

  /** The header the close writes is the end-of-archive marker the
      readers look for. */
  lemma TrailerIsMarker()
    ensures IsTrailer(Trailer) && |TrailerName| == 10
  {
    TrailerRecognised("");
    assert TrailerName + "" == TrailerName;
  }

  class Archive {
    var mode: Mode
    /** The archive descriptor; -1 when closed. */
    var fd: int
    /** `base.fd` and `base.dirname`. */
    var baseFd: int
    var baseDir: Option<string>
    /** The archive file as written through `fd`. */
    var out: Sink
    /** `read`: the current header of a scan and its body progress. */
    var read: ReadState
    /** The open(2) request made by the last `Open`. */
    ghost var openedAs: Option<OpenRequest>
    /** Every descriptor handed to close(2), in order. */
    ghost var closed: seq<int>

    /** `cpio_archive_create`: a closed handle whose base directory is
        the current working directory.  `file` stands for the archive
        file that `open` will reach. */
    constructor (mode: Mode, file: Sink)
      ensures this.mode == mode && fd == -1 && baseFd == AtFdCwd && baseDir.None?
      ensures out == file && fresh(read) && read.current.None?
      ensures openedAs.None? && closed == []
    {
      this.mode := mode;
      fd := -1;
      baseFd := AtFdCwd;
      baseDir := None;
      out := file;
      read := new ReadState();
      openedAs := None;
      closed := [];
    }

    /** `cpio_archive_open`: opens the archive read-only or write/create
        according to the mode; the write/create call passes no permission
        bits.  `openResult` is what open(2) returns. */
    method Open(openResult: int) returns (r: int)
      modifies this`fd, this`openedAs
      ensures mode == ModeNone ==> r == -1 && fd == -1 && openedAs == old(openedAs)
      ensures mode == ModeRead ==> openedAs == Some(ReadOnly) && fd == openResult
      ensures mode == ModeWrite ==> openedAs == Some(WriteCreate(None)) && fd == openResult
      ensures r == 0 || r == -1
      ensures r == 0 <==> mode != ModeNone && openResult >= 0
    {
      match mode {
        case ModeRead =>
          fd := openResult;
          openedAs := Some(ReadOnly);
        case ModeWrite =>
          fd := openResult;
          openedAs := Some(WriteCreate(None));
        case ModeNone =>
          fd := -1;
          return -1;
      }
      if fd < 0 {
        return -1;
      }
      r := 0;
    }

    /** `cpio_archive_close`.  In write mode it creates the trailer header
        (`allocOk` is the outcome of calloc, `dupOk` that of strdup) and
        serialises it; only when the whole text was written does it close
        the descriptor.  A failed creation writes nothing; a filename that
        could not be copied is refused by the serialiser before anything
        is written.  Any other mode does nothing. */
    method Close(allocOk: bool, dupOk: bool) returns (r: int)
      modifies this`fd, this`closed, out
      ensures r == 0 || r == -1
      ensures mode != ModeWrite ==>
                r == 0 && fd == old(fd) && closed == old(closed) &&
                out.data == old(out.data) && out.script == old(out.script) && out.calls == old(out.calls)
      ensures mode == ModeWrite && !(allocOk && dupOk) ==>
                r == -1 && fd == old(fd) && closed == old(closed) &&
                out.data == old(out.data) && out.script == old(out.script) && out.calls == old(out.calls)
      ensures mode == ModeWrite && allocOk && dupOk ==>
                var text := Text(Trailer);
                var wr := WriteResult(old(out.script), |text|);
                (forall i :: 0 <= i < |text| ==> IsTextChar(text[i])) &&
                out.calls == old(out.calls) + [Octets(text)] &&
                out.script == Tail(old(out.script)) &&
                out.data == old(out.data) + Octets(text)[..Accepted(wr, |text|)] &&
                (r == 0 <==> wr == |text|) &&
                (r == 0 ==> fd == -1 && closed == old(closed) + [old(fd)]) &&
                (r == -1 ==> fd == old(fd) && closed == old(closed))
    {
      if mode == ModeWrite {
        var c := HeaderCreate(ZeroStat, TrailerName, allocOk, dupOk);
        if c.None? {
          return -1;
        }
        var ret := Serialise(out, c.value);
        if ret < 1 {
          return -1;
        }
        closed := closed + [fd];
        fd := -1;
        return 0;
      }
      r := 0;
    }

    /** `cpio_archive_set_base_directory`: closes the previous base
        directory when it is a real descriptor and forgets it, then copies
        the name (`dupOk` is the outcome of strdup) and opens it
        (`openResult` is what open(2) returns).  After a failure the base
        is -1, so later relative opens fail rather than fall back to the
        working directory. */
    method SetBaseDirectory(dirname: string, dupOk: bool, openResult: int) returns (r: int)
      modifies this`baseFd, this`baseDir, this`closed
      ensures closed == old(closed) + (if old(baseFd) > -1 then [old(baseFd)] else [])
      ensures r == 0 || r == -1
      ensures r == 0 <==> dupOk && openResult != -1
      ensures !dupOk ==> baseFd == -1 && baseDir.None?
      ensures dupOk ==> baseFd == openResult && baseDir == Some(dirname)
    {
      if baseFd > -1 {
        closed := closed + [baseFd];
      }
      baseFd := -1;
      baseDir := None;
      if !dupOk {
        return -1;
      }
      baseDir := Some(dirname);
      baseFd := openResult;
      if baseFd == -1 {
        return -1;
      }
      r := 0;
    }

    /** `cpio_archive_write_add_manifest`: not implemented; it always
        fails. */
    method WriteAddManifest(name: string) returns (r: int)
      ensures r == -1
    {
      r := -1;
    }

    /** `cpio_archive_begin_read`: the same scan as the xcpio reader, over
        a 1024-byte buffer that every pass tops up with one read(2) asking
        for all the room left, and always extracting.  The buffer is never
        full at the top of a pass, so every pass reads and the count added
        to `buf_len` is always the fresh one.  A header still incomplete
        in a full buffer is refused.  `script` is what read(2) returns on
        the archive, `opens` whether a destination can be created and
        `destScript` what write(2) returns on the destinations.  With the
        stub deserialiser no header is ever parsed, so the first pass
        decides everything: it returns 0, with no entries, exactly when
        its read of up to 1024 bytes returns data (which the decoder then
        refuses), and -1 when that read finds end of file or fails. */
    method BeginRead(script: seq<Chunk>, opens: Header -> bool, destScript: seq<int>)
      returns (retval: int, ghost stop: Stop, ghost entries: seq<Entry>, ghost end: Ending)
      requires read.current.None?
      modifies read
      ensures read.current.None?
      ensures retval == Retval(stop)
      ensures Halted(script, Deserialise, Fill(ReadBufSize), stop, entries, end)
      ensures entries == []
      ensures stop.DecodeFailed? || stop.EndOfInput? || stop.ReadFailed?
      ensures retval == 0 <==> Read(script, ReadBufSize).r > 0
      ensures stop.EndOfInput? <==> Read(script, ReadBufSize).r == 0
      ensures stop.ReadFailed? <==> Read(script, ReadBufSize).r < 0
    {
      var p := Fill(ReadBufSize);
      var buf := new byte[Capacity(p)];
      var bufLen: nat := 0;
      var src := script;
      var target := false;
      var dscript := destScript;
      StubDecoder();
      ghost var allFull := AllFull(destScript, buf.Length);
      ghost var g := Scan([], [], [], [], NotOpened, []);
      retval, stop := 0, DecodeFailed;
      end := Ending(Entry([], [], Header(ZeroStat, None), [], NotOpened), [], []);
      assert buf[..bufLen] == [];
      StartScanInv(script, Deserialise, true, opens, buf.Length, read.consumedBytes, destScript);
      var halted := false;
      while !halted
        invariant buf.Length == Capacity(p) && fresh(buf)
        invariant !halted ==>
                    bufLen == 0 && src == script && read.current.None? &&
                    ScanInv(script, Deserialise, true, opens, allFull, buf.Length, buf[..bufLen], src, read.current, read.consumedBytes, target, dscript, g, true)
        invariant halted ==>
                    retval == Retval(stop) && g.entries == [] && Halted(script, Deserialise, p, stop, g.entries, end) &&
                    (stop.EndOfInput? <==> Read(script, ReadBufSize).r == 0) &&
                    (stop.ReadFailed? <==> Read(script, ReadBufSize).r < 0)
        decreases if halted then 0 else 1
      {
        var phase;
        phase, retval, bufLen, src, target, dscript, g, end :=
          read.ScanPass(script, Deserialise, true, opens, allFull, buf, bufLen, p, src, target, dscript, g);
        if phase.Halt? {
          stop := phase.stop;
          halted := true;
        }
      }
      entries := g.entries;
      read.current := None;
    }
  }

  /** With the stub deserialiser no entry can ever be completed, since
      every completed entry's header was parsed by the decoder. */
  lemma NoneParsed(opens: Header -> bool, allFull: bool, entries: seq<Entry>)
    requires AllFinished(Deserialise, true, opens, allFull, entries)
    ensures entries == []
  {
  }
}
