/** The xcpio archive engine: block size and open, the write-side block
    buffer (flush, write_data, close), writing the manifest, and the
    read-side scan loop. */
module XcpioArchive {
  import opened CpioTypes
  import opened ArchiveIo
  import opened Lookahead
  import opened Scanner
  import Mem
  import FileList

  /** DEFAULT_CPIO_BLOCK_SIZE.  Its definition is not part of this model;
      only its positivity is used. */
  const DefaultBlockSize: int := 512

  /** XCPIO_WRITE_BUF_SIZE: the chunk size `write_file` reads with. */
  const WriteBufSize: nat := 1024

  /** What `write_file` finds when it opens `filename` under the base
      directory: open or fstat failure, or a readable file together with
      its serialised header (None when header creation or serialisation
      fails) and the script of read(2) results on it. */
  datatype SourceFile = OpenFails | StatFails | Readable(header: Option<seq<byte>>, chunks: seq<Chunk>)

  /** The bytes a read script yields before end of file. */
  function Content(script: seq<Chunk>): seq<byte> {
    if script == [] then []
    else match script[0]
      case Failed => []
      case Data(b) => if b == [] then [] else b + Content(script[1..])
  }

  /** The read script reaches end of file without an error. */
  predicate ReadsOk(script: seq<Chunk>) {
    script == [] ||
    (script[0].Data? && (script[0].bytes == [] || ReadsOk(script[1..])))
  }

  /** A read that returned data leaves the rest of the file to read: the
      content splits at the read and error-freedom carries over. */
  lemma ReadSplitsContent(script: seq<Chunk>, n: nat)
    requires n > 0 && Read(script, n).r > 0
    ensures Content(script) == Read(script, n).got + Content(Read(script, n).rest)
    ensures ReadsOk(script) <==> ReadsOk(Read(script, n).rest)
  {
    var b := script[0].bytes;
    if |b| > n {
      var rest := Read(script, n).rest;
      assert rest[0] == Data(b[n..]) && rest[1..] == script[1..];
      assert b == b[..n] + b[n..];
    }
  }

  /** Appending in two steps is appending the two parts at once. */
  lemma Regroup(a: seq<byte>, b: seq<byte>, c: seq<byte>)
    ensures a + b + c == a + (b + c)
  {
  }

  class Archive {
    var mode: Mode
    /** The archive descriptor; -1 when closed. */
    var fd: int
    /** `base.fd` and `base.dirname`: where relative names are opened. */
    var baseFd: int
    var baseDir: Option<string>
    var blockSize: int
    /** `write.buf`, `write.len` and `write.size`. */
    var wbuf: array<byte>
    var wlen: int
    var wsize: int
    /** The archive file as written through `fd`. */
    var out: Sink
    /** `files.fl`: the manifest. */
    var files: FileList.FileList
    /** `read`: the current header of a scan and its body progress. */
    var read: ReadState
    /** The open(2) request made by the last `Open`. */
    ghost var openedAs: Option<OpenRequest>
    /** Every filename `write_file` was called with, in order. */
    ghost var attempts: seq<string>

    /** The write buffer is allocated and holds at most one block. */
    ghost predicate WriteReady()
      reads this
    {
      wbuf.Length == wsize && wsize > 0 && 0 <= wlen <= wsize
    }

    /** The bytes waiting in the write buffer. */
    ghost function Pending(): seq<byte>
      reads this, wbuf
      requires WriteReady()
    {
      wbuf[..wlen]
    }

    /** `cpio_archive_create`: a closed handle with the default block size,
        an empty manifest, no buffer yet, and the current working
        directory as its base.  `file` stands for the archive file that
        `open` will reach. */
    constructor (mode: Mode, file: Sink)
      ensures this.mode == mode && fd == -1 && blockSize == DefaultBlockSize
      ensures baseFd == AtFdCwd && baseDir.None?
      ensures out == file && fresh(read) && read.current.None? && openedAs.None? && attempts == []
      ensures fresh(files) && files.Consistent() && files.Entries() == []
      ensures wsize == 0 && wlen == 0
    {
      this.mode := mode;
      fd := -1;
      baseFd := AtFdCwd;
      baseDir := None;
      blockSize := DefaultBlockSize;
      wbuf := new byte[0];
      wlen, wsize := 0, 0;
      out := file;
      files := new FileList.FileList();
      read := new ReadState();
      openedAs := None;
      attempts := [];
    }

    /** `cpio_archive_set_blocksize`: a non-positive size is refused and
        leaves the block size as it was. */
    method SetBlocksize(size: int) returns (r: int)
      modifies this`blockSize
      ensures size <= 0 ==> r == -1 && blockSize == old(blockSize)
      ensures size > 0 ==> r == 0 && blockSize == size
    {
      if size <= 0 {
        return -1;
      }
      blockSize := size;
      r := 0;
    }

    /** `cpio_archive_open`: checks the block size, opens the archive
        read-only or write/create (mode 0644) according to the mode, and
        allocates an empty write buffer of one block.  `openResult` is
        what open(2) returns. */
    method Open(openResult: int) returns (r: int)
      modifies this`fd, this`openedAs, this`wbuf, this`wsize, this`wlen
      ensures mode == old(mode) && blockSize == old(blockSize) && out == old(out)
      ensures files == old(files) && read == old(read) && attempts == old(attempts)
      ensures r == 0 || r == -1
      ensures blockSize == 0 ==> r == -1 && fd == old(fd)
      ensures blockSize != 0 && mode == ModeNone ==> r == -1 && fd == -1
      ensures blockSize != 0 && mode == ModeRead ==> openedAs == Some(ReadOnly) && fd == openResult
      ensures blockSize != 0 && mode == ModeWrite ==> openedAs == Some(WriteCreate(Some(420))) && fd == openResult
      ensures r == 0 <==> blockSize > 0 && mode != ModeNone && openResult >= 0
      ensures r == 0 ==> WriteReady() && fresh(wbuf) && wsize == blockSize && Pending() == []
      ensures r == -1 ==> wbuf == old(wbuf) && wsize == old(wsize) && wlen == old(wlen)
      ensures blockSize == 0 || mode == ModeNone ==> openedAs == old(openedAs)
    {
      if blockSize == 0 {
        return -1;
      }
      match mode {
        case ModeRead =>
          fd := openResult;
          openedAs := Some(ReadOnly);
        case ModeWrite =>
          fd := openResult;
          openedAs := Some(WriteCreate(Some(420)));
        case ModeNone =>
          fd := -1;
          return -1;
      }
      if fd < 0 {
        return -1;
      }
      if blockSize < 0 {
        // calloc of a negative size, converted to size_t, fails
        return -1;
      }
      wbuf := new byte[blockSize];
      wsize := blockSize;
      wlen := 0;
      r := 0;
    }

    /** `cpio_archive_write_flush`.  Without padding it does nothing unless
        the buffer is full.  Otherwise it zero-fills the rest of the
        buffer and writes exactly one whole block: the buffered bytes
        followed by zeros.  A full write empties the buffer and returns
        the block size; an error or a short write returns -1 and keeps
        the buffered bytes. */
    method Flush(pad: bool) returns (r: int)
      requires WriteReady()
      modifies this`wlen, wbuf, out
      ensures WriteReady() && wsize == old(wsize)
      ensures !pad && old(wlen) != wsize ==>
                r == 0 && wlen == old(wlen) && wbuf[..] == old(wbuf[..]) &&
                out.data == old(out.data) && out.script == old(out.script) && out.calls == old(out.calls)
      ensures pad || old(wlen) == wsize ==>
                var block := old(Pending()) + Zeros(wsize - old(wlen));
                var ret := WriteResult(old(out.script), wsize);
                |block| == wsize &&
                out.calls == old(out.calls) + [block] &&
                out.script == Tail(old(out.script)) &&
                out.data == old(out.data) + block[..Accepted(ret, wsize)] &&
                (ret == wsize ==> r == wsize && wlen == 0) &&
                (ret != wsize ==> r == -1 && wlen == old(wlen) && Pending() == old(Pending()))
      ensures old(out.data) <= out.data
      ensures out.script == After(old(out.script), |out.calls| - |old(out.calls)|)
      ensures r == -1 <==> !FirstFull(old(out.script), |out.calls| - |old(out.calls)|, wsize)
    {
      FirstFullOne(out.script, wsize);
      if pad {
        Mem.ZeroFrom(wbuf, wlen);
        assert wbuf[..] == wbuf[..wlen] + wbuf[wlen..];
      } else if wsize != wlen {
        return 0;
      }
      assert wbuf[..] == old(Pending()) + Zeros(wsize - old(wlen));
      var ret := out.Write(wbuf[..]);
      if ret < 0 {
        return -1;
      }
      if ret != wsize {
        return -1;
      }
      wlen := 0;
      r := wsize;
    }

    /** Steps 2 and 3 of `cpio_archive_write_data`: memcpy a chunk that
        fits behind the buffered bytes and count it. */
    method Stage(chunk: seq<byte>)
      requires WriteReady() && wlen + |chunk| <= wsize
      modifies this`wlen, wbuf
      ensures WriteReady() && wlen == old(wlen) + |chunk|
      ensures Pending() == old(Pending()) + chunk
    {
      Mem.CopyIn(wbuf, wlen, chunk);
      wlen := wlen + |chunk|;
    }

    /** One pass of the `cpio_archive_write_data` loop: flush a full
        buffer, then (unless the input is used up) copy as much of the
        rest of the input as fits.  `full` tells whether a block went
        out.  It fails exactly when the write it made failed or came up
        short. */
    method WriteStep(input: seq<byte>, off: nat) returns (fr: int, copyLen: nat, ghost full: bool)
      requires WriteReady() && off <= |input|
      modifies this`wlen, wbuf, out
      ensures WriteReady() && wsize == old(wsize)
      ensures old(out.calls) <= out.calls
      ensures forall k :: |old(out.calls)| <= k < |out.calls| ==> |out.calls[k]| == wsize
      ensures fr == -1 || fr >= 0
      ensures old(out.data) <= out.data
      ensures out.script == After(old(out.script), |out.calls| - |old(out.calls)|)
      ensures fr == -1 <==> !FirstFull(old(out.script), |out.calls| - |old(out.calls)|, wsize)
      ensures fr >= 0 && off + copyLen < |input| ==> wlen == wsize
      ensures fr >= 0 ==>
                off + copyLen <= |input| && (copyLen == 0 <==> off == |input|) &&
                out.data + Pending() == old(out.data) + old(Pending()) + input[off..off + copyLen]
      ensures fr >= 0 && copyLen == 0 ==> wlen < wsize
      ensures AllFull(old(out.script), wsize) ==>
                fr >= 0 && AllFull(out.script, wsize) &&
                |out.data| == |old(out.data)| + (if full then wsize else 0)
    {
      ghost var data0, held0, len0 := out.data, Pending(), wlen;
      full := false;
      fr := Flush(false);
      if fr < 0 {
        return -1, 0, full;
      }
      if len0 == wsize {
        assert held0 + Zeros(0) == held0;
        assert out.data == data0 + held0 && Pending() == [];
        full := true;
      }
      assert out.data + Pending() == data0 + held0;
      if off == |input| {
        return fr, 0, full;
      }
      copyLen := if |input| - off < wsize - wlen then |input| - off else wsize - wlen;
      ghost var data1, held1 := out.data, Pending();
      Stage(input[off..off + copyLen]);
      assert out.data + Pending() == (data1 + held1) + input[off..off + copyLen];
    }

    /** `cpio_archive_write_data`: pushes `input` through the block buffer.
        Every write(2) it makes is one whole block.  On success it returns
        the input length, the bytes that reached the archive followed by
        the buffer equal the old ones followed by the input, and the
        buffer is left not full.  It fails exactly when one of the writes
        it made failed or came up short; in particular it succeeds when
        every write accepts a whole block. */
    method WriteData(input: seq<byte>) returns (r: int, ghost blocks: nat)
      requires WriteReady()
      modifies this`wlen, wbuf, out
      ensures WriteReady() && wsize == old(wsize)
      ensures r == |input| || r == -1
      ensures old(out.calls) <= out.calls && old(out.data) <= out.data
      ensures forall k :: |old(out.calls)| <= k < |out.calls| ==> |out.calls[k]| == wsize
      ensures out.script == After(old(out.script), |out.calls| - |old(out.calls)|)
      ensures r == -1 <==> !FirstFull(old(out.script), |out.calls| - |old(out.calls)|, wsize)
      ensures r == |input| ==>
                out.data + Pending() == old(out.data) + old(Pending()) + input && wlen < wsize
      ensures AllFull(old(out.script), wsize) ==>
                r == |input| && AllFull(out.script, wsize) &&
                |out.data| == |old(out.data)| + blocks * wsize
    {
      var off := 0;
      blocks := 0;
      while true
        invariant WriteReady() && wsize == old(wsize)
        invariant 0 <= off <= |input|
        invariant out.data + Pending() == old(out.data) + old(Pending()) + input[..off]
        invariant old(out.calls) <= out.calls && old(out.data) <= out.data
        invariant forall k :: |old(out.calls)| <= k < |out.calls| ==> |out.calls[k]| == wsize
        invariant out.script == After(old(out.script), |out.calls| - |old(out.calls)|)
        invariant FirstFull(old(out.script), |out.calls| - |old(out.calls)|, wsize)
        invariant AllFull(old(out.script), wsize) ==>
                    AllFull(out.script, wsize) && |out.data| == |old(out.data)| + blocks * wsize
        decreases |input| - off
      {
        ghost var before, acc := |out.calls| - |old(out.calls)|, out.data + Pending();
        var fr, copyLen, full := WriteStep(input, off);
        FirstFullSplit(old(out.script), before, |out.calls| - |old(out.calls)| - before, wsize);
        if fr < 0 {
          return -1, blocks;
        }
        assert out.data + Pending() == acc + input[off..off + copyLen];
        if full {
          assert (blocks + 1) * wsize == blocks * wsize + wsize;
          blocks := blocks + 1;
        }
        assert input[..off + copyLen] == input[..off] + input[off..off + copyLen];
        off := off + copyLen;
        if copyLen == 0 || wlen != wsize {
          break;
        }
      }
      assert input[..off] == input;
      r := off;
    }

    /** `cpio_archive_close`.  In write mode it pushes the serialised
        trailer through the block buffer, writes the last block zero-padded
        (a whole zero block when the data ended on a block boundary),
        closes the descriptor and returns 0 whatever those writes
        returned; it returns -1 and changes nothing when the trailer could
        not be built.  In any other mode it does nothing. */
    method Close(trailer: Option<seq<byte>>) returns (r: int, ghost blocks: nat)
      requires mode == ModeWrite ==> WriteReady()
      modifies this`fd, this`wlen, wbuf, out
      ensures mode == old(mode) && files == old(files) && out == old(out)
      ensures mode == ModeWrite ==> WriteReady() && wsize == old(wsize)
      ensures mode != ModeWrite || trailer.None? ==>
                r == (if mode == ModeWrite then -1 else 0) && fd == old(fd) &&
                out.data == old(out.data) && out.calls == old(out.calls) && out.script == old(out.script) &&
                wlen == old(wlen) && wbuf[..] == old(wbuf[..])
      ensures mode == ModeWrite && trailer.Some? ==> r == 0 && fd == -1
      ensures mode == ModeWrite && trailer.Some? ==>
                old(out.data) <= out.data && old(out.calls) <= out.calls &&
                out.script == After(old(out.script), |out.calls| - |old(out.calls)|)
      ensures mode == ModeWrite && trailer.Some? ==>
                forall k :: |old(out.calls)| <= k < |out.calls| ==> |out.calls[k]| == wsize
      ensures mode == ModeWrite && trailer.Some? && AllFull(old(out.script), wsize) ==>
                var emitted := old(Pending()) + trailer.value;
                var pad := |out.data| - |old(out.data)| - |emitted|;
                0 < pad <= wsize &&
                out.data == old(out.data) + emitted + Zeros(pad) &&
                |out.data| - |old(out.data)| == blocks * wsize
    {
      blocks := 0;
      if mode != ModeWrite {
        return 0, blocks;
      }
      if trailer.None? {
        return -1, blocks;
      }
      ghost var emitted := Pending() + trailer.value;
      var written;
      written, blocks := WriteData(trailer.value);
      ghost var mid, pend, before := out.data, Pending(), |out.calls| - |old(out.calls)|;
      var _ := Flush(true);
      FirstFullSplit(old(out.script), before, 1, wsize);
      if AllFull(old(out.script), wsize) {
        assert mid + pend == old(out.data) + emitted;
        assert out.data == mid + (pend + Zeros(wsize - |pend|));
        assert (blocks + 1) * wsize == blocks * wsize + wsize;
        blocks := blocks + 1;
      }
      fd := -1;
      r := 0;
    }

    /** The inner loop of `cpio_archive_write_file`: hands one chunk read
        from the file to `cpio_archive_write_data` until all of it has been
        taken, giving up on the first failure, which happens exactly when
        one of its writes fails or comes up short. */
    method WriteChunk(buf: seq<byte>) returns (ok: bool, ghost blocks: nat)
      requires WriteReady()
      modifies this`wlen, wbuf, out
      ensures WriteReady() && wsize == old(wsize)
      ensures old(out.calls) <= out.calls
      ensures out.script == After(old(out.script), |out.calls| - |old(out.calls)|)
      ensures ok <==> FirstFull(old(out.script), |out.calls| - |old(out.calls)|, wsize)
      ensures forall k :: |old(out.calls)| <= k < |out.calls| ==> |out.calls[k]| == wsize
      ensures ok ==> out.data + Pending() == old(out.data) + old(Pending()) + buf
      ensures AllFull(old(out.script), wsize) ==>
                ok && AllFull(out.script, wsize) && |out.data| == |old(out.data)| + blocks * wsize
    {
      var wlen := 0;
      blocks := 0;
      while wlen < |buf|
        invariant 0 <= wlen <= |buf|
        invariant WriteReady() && wsize == old(wsize)
        invariant old(out.calls) <= out.calls
        invariant forall k :: |old(out.calls)| <= k < |out.calls| ==> |out.calls[k]| == wsize
        invariant out.data + Pending() == old(out.data) + old(Pending()) + buf[..wlen]
        invariant out.script == After(old(out.script), |out.calls| - |old(out.calls)|)
        invariant FirstFull(old(out.script), |out.calls| - |old(out.calls)|, wsize)
        invariant AllFull(old(out.script), wsize) ==>
                    AllFull(out.script, wsize) && |out.data| == |old(out.data)| + blocks * wsize
        decreases |buf| - wlen
      {
        ghost var before := |out.calls| - |old(out.calls)|;
        var wret, more := WriteData(buf[wlen..]);
        FirstFullSplit(old(out.script), before, |out.calls| - |old(out.calls)| - before, wsize);
        if wret <= 0 {
          return false, blocks;
        }
        assert buf[..wlen + wret] == buf[..wlen] + buf[wlen..];
        assert blocks * wsize + more * wsize == (blocks + more) * wsize;
        blocks := blocks + more;
        wlen := wlen + wret;
      }
      assert buf[..wlen] == buf;
      ok := true;
    }

    /** One pass of the read loop of `cpio_archive_write_file`: read up to
        1024 bytes from the file and push them through the block buffer.
        `status` is 0 at end of file, 1 when the chunk went through and -1
        exactly when the read fails or one of the writes fails or comes
        up short.  `script0` and `calls0` are the write results and calls
        as they stood when the copy began, all of whose writes so far were
        whole blocks. */
    method CopyStep(rest: seq<Chunk>, ghost script0: seq<int>, ghost calls0: seq<seq<byte>>)
      returns (status: int, rest': seq<Chunk>, ghost chunk: seq<byte>, ghost blocks: nat)
      requires WriteReady()
      requires calls0 <= out.calls && out.script == After(script0, |out.calls| - |calls0|)
      requires FirstFull(script0, |out.calls| - |calls0|, wsize)
      modifies this`wlen, wbuf, out
      ensures WriteReady() && wsize == old(wsize)
      ensures old(out.calls) <= out.calls
      ensures forall k :: |old(out.calls)| <= k < |out.calls| ==> |out.calls[k]| == wsize
      ensures status == 0 ==>
                Content(rest) == [] && ReadsOk(rest) && out.data == old(out.data) && Pending() == old(Pending())
      ensures status == 1 ==>
                Size(rest') < Size(rest) &&
                Content(rest) == chunk + Content(rest') && (ReadsOk(rest) <==> ReadsOk(rest')) &&
                out.data + Pending() == old(out.data) + old(Pending()) + chunk
      ensures status == 0 || status == 1 || status == -1
      ensures out.script == After(script0, |out.calls| - |calls0|)
      ensures status == -1 <==> (rest != [] && rest[0].Failed?) || !FirstFull(script0, |out.calls| - |calls0|, wsize)
      ensures AllFull(old(out.script), wsize) ==>
                (status == -1 ==> !ReadsOk(rest)) &&
                AllFull(out.script, wsize) && |out.data| == |old(out.data)| + blocks * wsize
    {
      blocks, rest' := 0, rest;
      var rr := Read(rest, WriteBufSize);
      chunk := rr.got;
      if rr.r == 0 {
        return 0, rest', chunk, blocks;
      }
      if rr.r < 0 {
        return -1, rest', chunk, blocks;
      }
      ReadSplitsContent(rest, WriteBufSize);
      ghost var before := |out.calls| - |calls0|;
      var done;
      done, blocks := WriteChunk(rr.got);
      FirstFullSplit(script0, before, |out.calls| - |calls0| - before, wsize);
      if !done {
        return -1, rest', chunk, blocks;
      }
      return 1, rr.rest, chunk, blocks;
    }

    /** The read loop of `cpio_archive_write_file`: reads the file 1024
        bytes at a time until end of file and pushes each chunk through
        the block buffer.  It succeeds exactly when the file reads to its
        end without error and every archive write it makes accepts a
        whole block, and then the file's contents have joined the
        archive. */
    method CopyContents(chunks: seq<Chunk>) returns (ok: bool, ghost blocks: nat)
      requires WriteReady()
      modifies this`wlen, wbuf, out
      ensures WriteReady() && wsize == old(wsize)
      ensures old(out.calls) <= out.calls
      ensures forall k :: |old(out.calls)| <= k < |out.calls| ==> |out.calls[k]| == wsize
      ensures ok ==>
                ReadsOk(chunks) && out.data + Pending() == old(out.data) + old(Pending()) + Content(chunks)
      ensures out.script == After(old(out.script), |out.calls| - |old(out.calls)|)
      ensures ok <==> ReadsOk(chunks) && FirstFull(old(out.script), |out.calls| - |old(out.calls)|, wsize)
      ensures AllFull(old(out.script), wsize) ==>
                (ok <==> ReadsOk(chunks)) &&
                AllFull(out.script, wsize) && |out.data| == |old(out.data)| + blocks * wsize
    {
      blocks := 0;
      var rest := chunks;
      ghost var copied: seq<byte> := [];
      while true
        invariant WriteReady() && wsize == old(wsize)
        invariant old(out.calls) <= out.calls
        invariant forall k :: |old(out.calls)| <= k < |out.calls| ==> |out.calls[k]| == wsize
        invariant out.data + Pending() == old(out.data) + old(Pending()) + copied
        invariant Content(chunks) == copied + Content(rest)
        invariant ReadsOk(chunks) <==> ReadsOk(rest)
        invariant out.script == After(old(out.script), |out.calls| - |old(out.calls)|)
        invariant FirstFull(old(out.script), |out.calls| - |old(out.calls)|, wsize)
        invariant AllFull(old(out.script), wsize) ==> |out.data| == |old(out.data)| + blocks * wsize
        decreases Size(rest)
      {
        ghost var before := |out.calls| - |old(out.calls)|;
        if AllFull(old(out.script), wsize) {
          AllFullAfter(old(out.script), before, wsize);
        }
        var status, rest', chunk, more := CopyStep(rest, old(out.script), old(out.calls));
        ghost var after := |out.calls| - |old(out.calls)|;
        assert blocks * wsize + more * wsize == (blocks + more) * wsize;
        blocks := blocks + more;
        if status == 0 {
          assert ReadsOk(rest) && FirstFull(old(out.script), after, wsize);
          break;
        }
        if status < 0 {
          assert !ReadsOk(chunks) || !FirstFull(old(out.script), after, wsize);
          if AllFull(old(out.script), wsize) {
            AllFullAfter(old(out.script), after, wsize);
            AllFullFirstFull(old(out.script), after, wsize);
          }
          return false, blocks;
        }
        Regroup(old(out.data) + old(Pending()), copied, chunk);
        Regroup(copied, chunk, Content(rest'));
        copied := copied + chunk;
        rest := rest';
      }
      assert Content(rest) == [];
      if AllFull(old(out.script), wsize) {
        AllFullAfter(old(out.script), |out.calls| - |old(out.calls)|, wsize);
      }
      ok := true;
    }

    /** `cpio_archive_write_file`: opens `name` under the base directory,
        writes its serialised header and then its contents, read 1024
        bytes at a time, through the block buffer.  `src` is what the file
        system offers for `name`.  It fails before writing anything when
        the file cannot be opened or stat'ed or its header cannot be
        built; it succeeds exactly when the header is non-empty, the file
        reads to its end without error and every archive write it makes
        accepts a whole block.  On success the archive followed by the
        buffer has grown by the header and the file's contents. */
    method WriteFile(name: string, src: SourceFile) returns (r: int, ghost blocks: nat)
      requires WriteReady()
      modifies this`wlen, wbuf, out, this`attempts
      ensures WriteReady() && wsize == old(wsize)
      ensures attempts == old(attempts) + [name]
      ensures r == 0 || r == -1
      ensures old(out.calls) <= out.calls
      ensures forall k :: |old(out.calls)| <= k < |out.calls| ==> |out.calls[k]| == wsize
      ensures src.OpenFails? || src.StatFails? || (src.Readable? && src.header.None?) ==>
                r == -1 && out.data == old(out.data) && out.calls == old(out.calls) &&
                out.script == old(out.script) && Pending() == old(Pending())
      ensures r == 0 ==>
                src.Readable? && src.header.Some? && src.header.value != [] && ReadsOk(src.chunks) &&
                out.data + Pending() == old(out.data) + old(Pending()) + src.header.value + Content(src.chunks)
      ensures out.script == After(old(out.script), |out.calls| - |old(out.calls)|)
      ensures r == 0 <==>
                src.Readable? && src.header.Some? && src.header.value != [] && ReadsOk(src.chunks) &&
                FirstFull(old(out.script), |out.calls| - |old(out.calls)|, wsize)
      ensures AllFull(old(out.script), wsize) ==>
                AllFull(out.script, wsize) && |out.data| == |old(out.data)| + blocks * wsize &&
                (r == 0 <==> src.Readable? && src.header.Some? && src.header.value != [] && ReadsOk(src.chunks))
    {
      attempts := attempts + [name];
      blocks := 0;
      if !src.Readable? || src.header.None? {
        return -1, blocks;
      }
      var hdr := src.header.value;
      ghost var base := old(out.data) + old(Pending());
      var wr;
      wr, blocks := WriteData(hdr);
      if wr <= 0 {
        return -1, blocks;
      }
      ghost var before := |out.calls| - |old(out.calls)|;
      var ok, more := CopyContents(src.chunks);
      FirstFullSplit(old(out.script), before, |out.calls| - |old(out.calls)| - before, wsize);
      assert blocks * wsize + more * wsize == (blocks + more) * wsize;
      blocks := blocks + more;
      if !ok {
        return -1, blocks;
      }
      r := 0;
    }

    /** `cpio_archive_write_files`: writes every manifest entry in order,
        going on past entries that fail, and returns 0.  `sources` is what
        the file system offers for each name. */
    method WriteFiles(sources: string -> SourceFile) returns (r: int)
      requires WriteReady() && files.Consistent()
      modifies this`wlen, wbuf, out, this`attempts
      ensures WriteReady() && wsize == old(wsize)
      ensures r == 0
      ensures attempts == old(attempts) + files.Entries()
      ensures forall k :: |old(out.calls)| <= k < |out.calls| ==> |out.calls[k]| == wsize
    {
      var i := 0;
      while i < files.nentries
        invariant 0 <= i <= files.nentries
        invariant WriteReady() && wsize == old(wsize)
        invariant attempts == old(attempts) + files.Entries()[..i]
        invariant old(out.calls) <= out.calls
        invariant forall k :: |old(out.calls)| <= k < |out.calls| ==> |out.calls[k]| == wsize
      {
        var name := files.slots[i];
        var fr, _ := WriteFile(name, sources(name));
        assert files.Entries()[..i + 1] == files.Entries()[..i] + [name];
        i := i + 1;
      }
      assert files.Entries()[..i] == files.Entries();
      r := 0;
    }

    /** `cpio_archive_write_add_manifest`: appends to the manifest. */
    method WriteAddManifest(name: string, allocOk: bool) returns (r: int)
      requires files.Consistent()
      modifies files, files.slots
      ensures files.Consistent()
      ensures files.slots == old(files.slots) || fresh(files.slots)
      ensures allocOk ==> r == 0
      ensures r == 0 ==> files.Entries() == old(files.Entries()) + [name]
      ensures r != 0 ==> r == -1 && files.Entries() == old(files.Entries())
    {
      r := files.AddEntry(name, allocOk);
    }

    /** `cpio_archive_begin_read`, with the lookahead accounting corrected
        (see `ScanFinding`): the archive is read a block at a time into a
        buffer of four blocks, only while a whole block still fits, and a
        header still incomplete once no further block fits is refused.
        `script` is what read(2) returns on the archive, `decode` the
        codec's header parser, `opens` whether the destination of a header
        can be created, and `destScript` what write(2) returns on the
        destinations.  The scan walks the archive entry by entry: every
        completed entry's header is what the decoder accepted from the
        archive bytes right after the entries before it, its body has
        exactly the header's length, and its destination holds a prefix
        of the body (all of it when every write is accepted); the entries
        account for a prefix of the archive, and the scan returns 0 only
        at the trailer or a decoder error. */
    method BeginRead(doExtract: bool, decode: Decoder, script: seq<Chunk>,
                     opens: Header -> bool, destScript: seq<int>)
      returns (retval: int, ghost stop: Stop, ghost entries: seq<Entry>, ghost end: Ending)
      requires DecoderContract(decode)
      requires blockSize > 0 && read.current.None?
      modifies read
      ensures read.current.None?
      ensures retval == Retval(stop)
      ensures Halted(script, decode, Blocks(blockSize), stop, entries, end)
      ensures forall e <- entries :: Finished(decode, doExtract, opens, AllFull(destScript, 4 * blockSize), e)
      ensures forall i | 0 <= i < |entries| :: Stream(entries[..i]) + entries[i].window <= Bytes(script)
    {
      var p := Blocks(blockSize);
      var buf := new byte[Capacity(p)];
      var bufLen: nat := 0;
      var src := script;
      var target := false;
      var dscript := destScript;
      ghost var allFull := AllFull(destScript, buf.Length);
      ghost var g := Scan([], [], [], [], NotOpened, []);
      end := Ending(Entry([], [], Header(ZeroStat, None), [], NotOpened), [], []);
      assert buf[..bufLen] == [];
      StartScanInv(script, decode, doExtract, opens, buf.Length, read.consumedBytes, destScript);
      while true
        invariant buf.Length == Capacity(p) && fresh(buf) && bufLen <= buf.Length
        invariant ScanInv(script, decode, doExtract, opens, allFull, buf.Length, buf[..bufLen], src, read.current, read.consumedBytes, target, dscript, g, true)
        decreases Size(src), bufLen
      {
        var phase;
        phase, retval, bufLen, src, target, dscript, g, end :=
          read.ScanPass(script, decode, doExtract, opens, allFull, buf, bufLen, p, src, target, dscript, g);
        if phase.Halt? {
          stop := phase.stop;
          break;
        }
      }
      entries := g.entries;
      AllFinishedEach(decode, doExtract, opens, allFull, entries);
      AllPlacedEach(entries, Bytes(script));
      read.current := None;
    }
  }
}
