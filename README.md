# A verified model of the bsdtools cpio archive engine

bsdtools carries two revisions of a small cpio archiver. Both write and read
archives through a file descriptor.

- **xcpio** (`new/src/xcpio`) is the newer one.
  - Archive writes go through a buffer of one block: `write_flush`, `write_data`, and `close`, which pads the last block with zeros.
  - A manifest list of filenames is gathered from a manifest file (`file_list.c`, and the manifest loop of `main.c`).
  - `write_files` writes every listed file.
  - `begin_read` scans an archive through a lookahead buffer of four blocks. It parses each header, streams each body to a destination file, and stops at the `TRAILER!!!` marker.
  - `main` chooses between create, extract and list from its flags.
- **cfgstore** (`new/src/cfgstore`) is the older one.
  - It opens and closes the archive; the close writes the trailer through a debugging header formatter.
  - It sets the base directory.
  - Its manifest is a stub that always fails.
  - It runs the same scan over a fixed 1024-byte buffer that every pass tops up.
  - Its header deserialiser is a stub that always fails.

## How the model is built

Each source file keeps its own form.

- **Objects updated in place become classes.** The archive handle of each engine, the manifest list and the read state are classes; their methods `modify` them.
- **The block buffer is an `array`.**
  - `Pending()` names the bytes waiting in it.
  - `out.data` is everything the archive descriptor has accepted.
  - `out.calls` is every `write(2)` the engine issued.
- **Loops keep their shape.** The do-while of `write_data`, the read loop of `write_file`, the scan loop of both `begin_read`s, the manifest loop and `char_trim_crlf` are `while` loops with their invariants.
- **System calls become scripts.** What `read(2)` returns on a file is a script of chunks (a `Chunk` is data or a failure). What `write(2)` returns is a script of counts; an empty script means every write is accepted in full. What `open(2)`, `strdup` and `calloc` return are parameters.
- **The xcpio header codec is abstract.** Its source is not part of this model; new/src/xcpio/cpio_format.c is not part of this model. The decoder is any function obeying the documented contract (`DecoderContract`: -1, 0, or a positive count of consumed bytes no larger than the input, with a header that owns a filename). The serialised header reaches `close` and `write_file` as bytes.
- **The cfgstore formatter is modelled in full.**
  - `Text(h)` is the eleven decimal fields joined by single spaces.
  - `%llu` fields are reduced modulo 2^64 and `%d` fields modulo 2^32, read back as signed.
  - The magic `070707` is octal and prints as `29127`.
  - `TextRoundTrip` proves that splitting the text at its spaces gives back the eleven fields. The magic field reads back as "29127", the namesize field as `strlen(filename)`, and the size field as `st_size`, each modulo 2^64.

The scan loop of both engines is one `Scanner.ReadState`, parameterised by a
refill `Policy`:
- `Blocks(bs)` is xcpio's: one block per read while a whole block still fits below the last one.
- `Fill(1024)` is cfgstore's: all the room that is left.

The scan keeps a ghost account of the entries it has gone through. Each
completed entry satisfies these properties:
- its header bytes are exactly what the decoder accepted;
- the bytes the decoder was shown for it are the archive bytes right after the entries before it;
- its body has exactly the header's length;
- its destination holds a prefix of the body;
- its destination holds the whole body when every write is accepted;
- it has no destination at all when extraction is off or the destination cannot be opened.

The entries account for a prefix of the archive. When the scan stops, `Halted`
records why: the trailer, a decoder error, end of input, a read error, or a
header too long for the buffer. A stop on end of input or on a read error
comes with a full account, an `Ending`. The completed entries, the header and
body of the entry in progress, the bytes still buffered and the unread rest
make up the whole archive, and the read of that rest returned 0 or a negative
count.

Each pass of both loops reads before it decodes. So a pass that meets end of
input stops with -1 even when the trailer is already buffered. In an archive
that fits in one read, the first pass decodes the first header and streams its
body, and the second pass reads end of file with the trailer still undecoded
in `held`. `ReadOrder.TwoEmptyFilesOneRead` runs two passes of the scan on one
such archive and shows this.

## Model

| member | source | states |
|---|---|---|
| CpioTypes.TrailerRecognised | new/src/xcpio/cpio_archive.c:518-523 | The end-of-archive test needs a size of 0 and compares only ten characters. So the created trailer and any name that starts with "TRAILER!!!" are recognised, and a nine-character prefix is not. |
| ArchiveIo.Read | new/src/xcpio/cpio_archive.c:455-466 | A read returns -1 exactly on a failed chunk and 0 exactly at end of file. Otherwise it returns at most the requested count, and the bytes it returns are the front of the remaining stream. |
| ArchiveIo.Sink.Write | new/src/xcpio/cpio_archive.c:94-108 | One write(2) on the archive: the call is recorded, and only the accepted prefix of the bytes reaches the file. |
| Mem.CopyIn | new/src/xcpio/cpio_archive.c:153-155 | memcpy into the buffer at an offset leaves every byte outside the copied range unchanged. |
| Mem.ZeroFrom | new/src/xcpio/cpio_archive.c:82-85 | memset zero-fills from `len` to the end and keeps the bytes before it. |
| Mem.Discard | new/src/xcpio/cpio_archive.c:511-513 | The memmove drops the first `k` of `len` bytes and shifts the rest to the front. |
| FileList.NextCapacity | new/src/xcpio/file_list.c:87-92 | Before a store there is always room. The capacity grows by exactly 16, and only when the list is full. |
| FileList.CapacityIsRoundedUp | new/src/xcpio/file_list.c:87-92 | After `k` additions from an empty list, the capacity is a multiple of 16 and lies in `[k, k+16)`. |
| FileList.FileList.constructor | new/src/xcpio/file_list.c:42-53 | A new list has no entries and no capacity. |
| FileList.FileList.Grow | new/src/xcpio/file_list.c:10-39 | If `nentries > nsize` it returns -1. If `nentries < nsize` it returns 0 and changes nothing. If the list is full and the allocation succeeds, the first `nentries` entries are copied in order and `nsize` becomes the requested size. A failed allocation returns -1 with nothing changed. |
| FileList.FileList.AddEntry | new/src/xcpio/file_list.c:76-96 | On success the name is appended and earlier entries are unchanged. The only failure is a full list whose growth allocation fails, and then the list is unchanged. `0 <= nentries <= nsize` is kept. |
| FileList.FileList.Flush | new/src/xcpio/file_list.c:66-74 | Empties the list without shrinking `nsize` or the array. |
| XcpioArchive.ReadSplitsContent | new/src/xcpio/cpio_archive.c:342-351 | A read that returned data splits the file's contents into that chunk and the rest. The rest still reads to its end exactly when the whole file does. |
| XcpioArchive.Archive.constructor | new/src/xcpio/cpio_archive.c:33-57 | A closed handle: default block size, an empty manifest, no write buffer, and AT_FDCWD (the working directory) as its base descriptor with no base name. |
| XcpioArchive.Archive.SetBlocksize | new/src/xcpio/cpio_archive.c:60-67 | A size `<= 0` returns -1 and leaves the block size unchanged. Any other size is stored and 0 is returned. |
| XcpioArchive.Archive.Open | new/src/xcpio/cpio_archive.c:178-210 | Fails when the block size is 0. Read mode opens read-only; write mode opens write/create with 0644 (420); any other mode sets `fd = -1` and fails. It returns 0 exactly when the open succeeds, and then the write buffer has `size == block_size` and `len == 0`. A failure leaves the write buffer as it was. A zero block size or an unknown mode records no open request. |
| XcpioArchive.Archive.Flush | new/src/xcpio/cpio_archive.c:78-114 | An unpadded flush of a buffer that is not full returns 0 and changes nothing. Otherwise it writes exactly one block: the buffered bytes followed by zeros. A full write empties the buffer and returns the size; a negative or short write returns -1 and keeps the buffered bytes. It returns -1 exactly when the write it issued failed or came up short. The archive only grows, and the write results used up are those of the calls it made. |
| XcpioArchive.Archive.Stage | new/src/xcpio/cpio_archive.c:153-155 | Copying a chunk that fits appends it to the pending bytes. |
| XcpioArchive.Archive.WriteStep | new/src/xcpio/cpio_archive.c:129-172 | One pass flushes a full buffer, then copies `min(remaining, room)` bytes. The archive followed by the buffer grows by exactly the copied input. Every write is one whole block. The loop goes on only while the buffer is full. It fails exactly when its write failed or came up short. |
| XcpioArchive.Archive.WriteData | new/src/xcpio/cpio_archive.c:122-175 | It returns the input length or -1. On success, the archive followed by the buffer equals the old archive, the old buffer and the input, in that order, and `len < size`. Every write(2) it issues is exactly one block. It returns -1 exactly when one of the writes it issued failed or came up short, and the archive only grows. If every write is accepted, the archive grows by whole blocks. |
| XcpioArchive.Archive.Close | new/src/xcpio/cpio_archive.c:213-250 | In write mode with a serialised trailer, it returns 0 and sets `fd = -1`. If every write is accepted, the archive gains the pending bytes, the trailer and 1..size zeros, and ends on a block boundary. Without a trailer it returns -1 with nothing written and no write issued. Read mode returns 0 and changes nothing. Only `fd`, the write buffer and the archive may change. The archive and its write calls only grow, and the write results used up are those of the calls made. |
| XcpioArchive.Archive.WriteChunk | new/src/xcpio/cpio_archive.c:352-364 | The inner write loop of `write_file`. On success the chunk has joined the archive followed by the buffer. It fails exactly when one of its writes failed or came up short. |
| XcpioArchive.Archive.CopyStep | new/src/xcpio/cpio_archive.c:342-364 | One read of up to 1024 bytes. At end of file (0) nothing changes. After data (1) the chunk is the front of the file's contents and has joined the archive. The status is -1 exactly when the read failed or a write failed or came up short. |
| XcpioArchive.Archive.CopyContents | new/src/xcpio/cpio_archive.c:342-365 | On success the file read to its end and its whole contents joined the archive. It succeeds exactly when the file reads to its end and every archive write it issued accepted a whole block. |
| XcpioArchive.Archive.WriteFile | new/src/xcpio/cpio_archive.c:299-377 | A failed open, fstat or header build returns -1 with nothing written. On success (0) the archive followed by the buffer has grown by the header and the file's contents. It returns 0 exactly when the file opens and fstats, the header is non-empty, the file reads to its end and every archive write it issued accepted a whole block. |
| XcpioArchive.Archive.WriteFiles | new/src/xcpio/cpio_archive.c:391-410 | Calls `write_file` on every manifest entry in index order, goes on past failures, and returns 0. Every archive write is one block. |
| XcpioArchive.Archive.WriteAddManifest | new/src/xcpio/cpio_archive.c:380-384 | Appends the name to the manifest (0) or leaves it unchanged (-1). It cannot fail when the allocation succeeds. |
| XcpioArchive.Archive.BeginRead | new/src/xcpio/cpio_archive.c:416-643 | The scan with the lookahead count corrected (see Findings). Each completed entry's header is what the decoder accepted, its body has the header's length, and its destination holds a prefix of the body (all of it when every write is accepted; none without `do_extract`). The decoder's window for each entry is the archive bytes right after the entries before it. The entries account for a prefix of the archive. It returns 0 only at the trailer or on a decoder error. On end of file or a read error, the entries, the entry in progress, the buffered bytes and the unread rest make up the whole archive, and that rest's read returned 0 or a negative count. |
| Lookahead.Retval | new/src/xcpio/cpio_archive.c:457-523 | `retval` is 0 exactly when the scan stops at the trailer or on a negative decode result. End of file, a read error and an overlong header give -1. This is a definition; its contract spells out each case of it. |
| Lookahead.BodyTake | new/src/xcpio/cpio_archive.c:570-571 | `cr = MIN(st_size - consumed, buf_len)` never passes the body's end or the buffer. It reaches the body's end exactly when the buffer holds enough. |
| Lookahead.Deliver | new/src/xcpio/cpio_archive.c:579-604 | A full destination write keeps the destination open and appends the chunk. A short or failed write closes it, keeping only what was accepted. With no destination nothing is written. |
| Lookahead.DeliverKeepsPrefix | new/src/xcpio/cpio_archive.c:579-611 | After any sequence of body steps, an open destination holds exactly the body so far, and a closed one holds a prefix of it. |
| Lookahead.ReadSize | new/src/xcpio/cpio_archive.c:449-455 | When a pass reads, the request is positive and fits in the buffer. xcpio asks for one block, and only while fewer than `3*bs` bytes are buffered. cfgstore asks for `1024 - buf_len`. |
| Lookahead.ReadInto | new/src/xcpio/cpio_archive.c:455-469 | read(fd, buf + buf_len, n) appends exactly the bytes read to the buffered ones and adds the fresh count to `buf_len`. |
| Scanner.ReadState.constructor | new/src/xcpio/cpio_archive.c:37-56 | A new handle has no current header and a zero body count. |
| Scanner.ReadState.StreamBody | new/src/xcpio/cpio_archive.c:570-626 | Takes `cr` bytes from the front of the buffer, adds them to `consumed_bytes` and delivers them. The header is released and the destination closed exactly when `consumed_bytes == st_size`. |
| Scanner.ReadState.AcceptHeader | new/src/xcpio/cpio_archive.c:508-562 | The parsed header becomes the current one and the body count is reset. It stops exactly when that header is the trailer, with the buffered bytes as the decoder's window. Otherwise the entry begins with that window, the buffer keeps only the bytes after the header bytes, and a destination is opened only when extracting. |
| Scanner.ReadState.Refill | new/src/xcpio/cpio_archive.c:449-469 | The read at the top of a pass. It goes on exactly when read(2) returns data, and then the scan invariant holds over the longer buffer and the shorter rest. The buffer is then the held bytes followed by the bytes read. Otherwise it stops with end of file exactly when the read returned 0, with a read error otherwise, and gives the full account of the archive. |
| Scanner.ReadState.TakeHeader | new/src/xcpio/cpio_archive.c:471-523 | The decoder's answer on exactly the buffered bytes decides the pass (`Decides`), in both directions. A negative result stops with retval 0. "Need more" retries exactly while a further read is possible, and is refused with -1 otherwise. A parsed trailer stops with 0. Any other parsed header becomes the current one, with the buffered bytes as its window. It never stops on end of file or a read error. |
| Scanner.ReadState.Examine | new/src/xcpio/cpio_archive.c:471-523 | After the read, a current header sends the pass on to its body with nothing changed. Without one, the decoder's answer on the buffered bytes decides the pass, as in `TakeHeader`. |
| Scanner.ReadState.NextHeader | new/src/xcpio/cpio_archive.c:446-523 | The header half of a pass, with or without a current header, keeps the scan invariant. It stops on end of file exactly when it reads and the read returns 0, and on a read error exactly when the read returns a negative count. Otherwise, without a current header, the decoder's answer on the buffer as the read left it (`Topped`) decides the pass. |
| Scanner.ReadState.NextBody | new/src/xcpio/cpio_archive.c:565-626 | The body half keeps the scan invariant. It shrinks the buffer whenever body bytes remain and the buffer is not empty. The current entry either stays current or, with its body complete, becomes the next completed entry with the same window and header (`EntryBegun`). |
| Scanner.ReadState.ScanPass | new/src/xcpio/cpio_archive.c:446-627 | One pass of the loop either halts with `Halted` established or keeps the scan invariant. It stops on end of file or a read error exactly when it reads and the read returns 0 or a negative count. Otherwise, with a current header it streams that entry's body. Without one, the decoder's answer on the buffer as the read left it decides the pass: a decoder error or the trailer stops it with 0, "need more" retries or is refused, and a parsed header begins an entry with that buffer as its window. |
| ReadOrder.FirstPassTakesEntry | new/src/xcpio/cpio_archive.c:471-477 | With 512-byte blocks and 160 bytes arriving in one read, a decoder that accepts an 80-byte header of an empty file makes the first pass go on. That entry is complete when the pass ends, so no header is current. |
| ReadOrder.FirstPassLeaves | new/src/xcpio/cpio_archive.c:565-626 | After that pass exactly one entry is complete, and the 80 bytes after it are what stays buffered. |
| ReadOrder.FirstPass | new/src/xcpio/cpio_archive.c:446-627 | Runs the first pass from a fresh buffer: it goes on, no header is current, nothing is left unread, 80 bytes stay buffered, and the scan invariant holds. |
| ReadOrder.TwoEmptyFilesOneRead | new/src/xcpio/cpio_archive.c:446-469 | On that archive the second pass reads again and stops at end of file with -1. One entry is complete, and the 80 bytes still buffered hold a header the decoder accepts. |
| ScanFinding.ShownAsWritten | new/src/xcpio/cpio_archive.c:449-469 | As written, `buf_len += r` adds the last read's count again when the read was skipped. This is a definition; its contract spells out each case of it. |
| ScanFinding.StaleReadOverruns | new/src/xcpio/cpio_archive.c:449-483 | With 512-byte blocks and 80-byte headers, pass five shows the decoder 2240 bytes of a 2048-byte buffer. |
| ScanFinding.StaleReadShowsUnreadBlock | new/src/xcpio/cpio_archive.c:449-469 | With no header fitting, pass four shows 2048 bytes after only 1536 were read. |
| ScanFinding.CorrectedStaysInBuffer | new/src/xcpio/cpio_archive.c:449-469 | With the count added only after a read, the decoder is never shown more than the four blocks of the buffer, for every block size, header size and pass count. |
| ScanFinding.CorrectedOnOverrunScenario | new/src/xcpio/cpio_archive.c:449-469 | On the overrun scenario, the corrected loop shows only the 1728 bytes it holds. |
| CfgFormat.Decimal | new/src/cfgstore/cpio_format.c:74-85 | A decimal rendering is a non-empty string of digits; it starts with '0' only for zero. |
| CfgFormat.DecimalRoundTrip | new/src/cfgstore/cpio_format.c:74-85 | Parsing a decimal rendering gives the number back. |
| CfgFormat.FormatU64 | new/src/cfgstore/cpio_format.c:74-85 | A `%llu` field is 1 to 20 digits. |
| CfgFormat.FormatU64RoundTrip | new/src/cfgstore/cpio_format.c:74-85 | A `%llu` field reads back as the value modulo 2^64. |
| CfgFormat.FormatInt | new/src/cfgstore/cpio_format.c:78-82 | A `%d` field is 1 to 11 characters of digits and minus signs. |
| CfgFormat.FormatIntRoundTrip | new/src/cfgstore/cpio_format.c:78-82 | A `%d` field is the low 32 bits read as signed. It is a plain decimal below 2^31; otherwise it is a minus sign followed by `2^32 - v`. |
| CfgFormat.SplitJoin | new/src/cfgstore/cpio_format.c:74 | Splitting the space-joined fields gives the fields back. |
| CfgFormat.TextRoundTrip | new/src/cfgstore/cpio_format.c:74-85 | The header text is eleven space-separated fields. The first is "29127" (octal 070707). The namesize field reads back as `strlen(filename)`, without the terminator, and the size field as `st_size`, both modulo 2^64. |
| CfgFormat.TextFits | new/src/cfgstore/cpio_format.c:66-74 | The text is at most 170 characters, so it always fits the 256-byte buffer and is never truncated. |
| CfgFormat.MagicText | new/src/cfgstore/cpio_format.c:74-75 | The magic is printed as "29127". |
| CfgFormat.SerialiseStatus | new/src/cfgstore/cpio_format.c:95-104 | write returned 0 → 0. Any other count that differs from the length → -1. A full write → 1. This is a definition; its contract spells out each case of it. |
| CfgFormat.Serialise | new/src/cfgstore/cpio_format.c:64-105 | A NULL filename returns -1 with nothing written. Otherwise the text is written in one write(2), only its accepted prefix reaches the file, and the result follows `SerialiseStatus`. |
| CfgFormat.HeaderCreate | new/src/cfgstore/cpio_format.c:34-46 | It fails exactly when calloc fails. Otherwise it copies the stat record. The filename is a copy of the name when strdup succeeds and NULL when it does not. Its contract spells out these cases of its definition. |
| CfgFormat.StubDecoder | new/src/cfgstore/cpio_format.c:114-118 | The deserialiser always returns -1: it never parses and never asks for more. |
| CfgArchive.TrailerIsMarker | new/src/cfgstore/cpio_archive.c:78-80 | The header `close` creates is the end-of-archive marker the readers look for. |
| CfgArchive.Archive.constructor | new/src/cfgstore/cpio_archive.c:30-47 | A closed handle whose base is AT_FDCWD. |
| CfgArchive.Archive.Open | new/src/cfgstore/cpio_archive.c:49-69 | Read mode opens read-only. Write mode opens write/create with no permission argument. Any other mode sets `fd = -1` and returns -1. It returns 0 exactly when the open succeeds. |
| CfgArchive.Archive.Close | new/src/cfgstore/cpio_archive.c:71-100 | In write mode: a failed create or a serialise result `< 1` returns -1 with `fd` kept. Otherwise the trailer text has been written, `fd` is closed and set to -1, and 0 is returned. Read mode returns 0 with no change. |
| CfgArchive.Archive.SetBaseDirectory | new/src/cfgstore/cpio_archive.c:118-139 | The previous base descriptor is closed first if it is a real one. A strdup failure leaves `base.fd == -1` and returns -1. Otherwise the base is the new name and descriptor, and it returns 0 exactly when open succeeded. |
| CfgArchive.Archive.WriteAddManifest | new/src/cfgstore/cpio_archive.c:211-217 | Always returns -1. |
| CfgArchive.Archive.BeginRead | new/src/cfgstore/cpio_archive.c:226-382 | Every pass reads `1024 - buf_len` bytes, since the buffer is never full at the top of a pass, so the count added at line 253 is always fresh. With the stub deserialiser no entry is ever completed and the first pass decides. It returns 0 exactly when the first read of up to 1024 bytes returns data, which the decoder then refuses. It stops on end of file exactly when that read returns 0 and on a read error exactly when it returns a negative count, and the unread rest accounts for the whole archive. |
| XcpioMain.CLen | new/src/xcpio/main.c:23 | strlen: the index of the first NUL, with no NUL before it. |
| XcpioMain.BreaksAreBreaks | new/src/xcpio/main.c:27-35 | The counted suffix is all '\r'/'\n', and the character before it is not. |
| XcpioMain.TrimRemovesOnlyBreaks | new/src/xcpio/main.c:27-35 | The trimmed string is a prefix of the original and only breaks are removed. It becomes empty only for "" or a single break. Its last character is a break only when the whole string was breaks. |
| XcpioMain.TrimExamples | new/src/xcpio/main.c:23-35 | "" is unchanged; "\n" and "\r" become "". "\r\n" becomes "\r", because index 0 is examined only for a one-character string. "a.c\r\n" becomes "a.c". |
| XcpioMain.TrimNotIdempotent | new/src/xcpio/main.c:27-35 | Trimming twice can differ from trimming once. |
| XcpioMain.TrimCrlf | new/src/xcpio/main.c:18-36 | Writes '\0' over exactly the trimmed suffix of the C string and nothing else, so the C string afterwards is the trimmed one. |
| XcpioMain.TrimmedCStr | new/src/xcpio/main.c:18-36 | The C string left in the array after the trim is `Trimmed` of the one before. |
| XcpioMain.CollectMeaning | new/src/xcpio/main.c:175-205 | After the options, create, extract and list are each set exactly when their flag occurs. The base directory, archive, manifest and block size are those of the last `-d`, `-f`, `-m` and `-b`. |
| XcpioMain.ParseOptions | new/src/xcpio/main.c:175-205 | An unknown option leads to usage (exit 127). Otherwise the settings are those collected from all the options. |
| XcpioMain.Decide | new/src/xcpio/main.c:209-242 | Exit 127 exactly when create equals (extract or list), `-f` is missing, or create has no `-m`. Extraction passes `do_extract = !list`. Each branch passes the given base directory, archive, manifest and block size. |
| XcpioMain.Run | new/src/xcpio/main.c:164-245 | The same decision stated in terms of the options given: both branches pass the last `-d`, `-f` and `-b`, and create passes the last `-m`. |
| XcpioMain.ListNeverExtracts | new/src/xcpio/main.c:210-211 | `-l` either exits 127 or lists with `do_extract` false. |
| XcpioMain.ListWithCreateRejected | new/src/xcpio/main.c:210-216 | `-l` together with `-c` exits 127. |
| XcpioMain.ChosenBlockSize | new/src/xcpio/main.c:49 | Because the result of `set_blocksize` is ignored, a non-positive `-b` keeps the default and a positive one is used. |
| XcpioMain.NewArchive | new/src/xcpio/main.c:83-88 | Create followed by an unchecked `set_blocksize` gives a handle with `ChosenBlockSize` and an empty manifest. |
| XcpioMain.AddLine | new/src/xcpio/main.c:101-117 | The line is trimmed in place and its C string is added. The manifest grows by exactly that name on success and is unchanged on failure. A successful allocation cannot fail. |
| XcpioMain.LoadManifest | new/src/xcpio/main.c:97-118 | The manifest gains the trimmed names of the lines that were added, in order. A line that cannot be added is skipped and the loop goes on. Every line whose allocation succeeds is added. |

## Left out

- System calls: `open`, `openat`, `fstat`, `fchown`, `read`, `write` and `close` are scripts or parameters. Mode bits, ownership and the `0644` of the created archive are recorded only as the open request.
- `malloc`/`calloc`/`strdup` failures are modelled only in `file_list_grow`, `cpio_header_create` and `set_base_directory`. These are taken to succeed: the `calloc` of `cpio_archive_create`, the xcpio write buffer in `open` and the xcpio scan buffer.
- FileList.FileList.AddEntry: the `strdup` at new/src/xcpio/file_list.c:93 is taken to succeed. Its result is stored unchecked, so on failure the source keeps a NULL entry, returns 0, and later hands that NULL to `write_file`. The model always stores the name.
- XcpioArchive.Archive.BeginRead: `buf_size = block_size * 4` (new/src/xcpio/cpio_archive.c:420) is an `int` and overflows for a block size above INT_MAX/4. `Capacity(Blocks(bs))` is the unbounded product.
- `struct stat` fields: `Stat` holds each as a non-negative integer. `st_mtime` and `st_size` are signed in the source, and negative values are not modelled.
- `cpio_archive_free`, `file_list_free`, `cpio_header_free`: deallocation only.
- The xcpio header codec: new/src/xcpio/cpio_format.c is not part of this model. The decoder is kept abstract, and headers reach `write_file` and `close` as serialised bytes.
- `cpio_path_sanity_filter` is only `strdup`; its allocation is taken to succeed, and whether a destination can be created is the `opens` parameter.
- `set_base_directory` of xcpio (new/src/xcpio/cpio_archive.c:270-291) is the same code as that of cfgstore, and is modelled once as `CfgArchive.Archive.SetBaseDirectory`. The xcpio handle keeps the base it was created with (`baseFd`, `baseDir`).
- The sequencing of `cpio_archive_extract` and `cpio_archive_output_create` after the manifest loop (open, write_files, close): each step is modelled, but the two drivers are not composed.
- `getopt` and `atoi`: options arrive already parsed as a sequence of `Opt`. `usage` text, `printf`/`warn` logging, the `fgets` line splitting at `PATH_MAX - 1`, and the `fopen` of the manifest are left out.
- cfgstore `write_file` and new/src/cfgstore/main.c are not part of this model. new/src/todo/cpio_fileio.c is not part of this model; it has no behaviour to compare against.
- DEFAULT_CPIO_BLOCK_SIZE is defined outside the files of this model. It is taken to be 512, and only its positivity is used.
- CfgFormat.FormatInt: `%d` of a field wider than `int` is modelled as its low 32 bits read as signed.
- CfgFormat.Serialise: the `snprintf` failure branch (`len < 0`) is not modelled, because `TextFits` shows the text always fits and is formatted.
- XcpioArchive.Archive.CopyStep: the inner loop's `wret <= 0` test never sees 0, since `write_data` returns the full count or -1. A status of 1 therefore stands for the whole chunk going through.
- XcpioArchive.Archive.WriteData: it takes `write_len` as an unbounded length; the `int` width of `bytes_written` is not modelled.
- XcpioArchive.Archive.BeginRead: models the corrected loop; the as-written lookahead count is modelled on lengths only in `ScanFinding`.
- XcpioArchive.Archive.BeginRead: the contract accounts for every byte at a stop on end of input or a read error, and ties the stop to that read's result. It does not say which pass meets the end: the bytes still buffered are not tied to what earlier passes decoded. Each pass states that tie itself (`ScanPass`), but the contract has no reference run of the whole loop.
- XcpioArchive.Archive.WriteFiles: states the order of attempts and the block-sized writes, not the archive contents across several files; `WriteFile` states those for one file.

## Findings

| source | as written | input that shows it | evidently intended | confidence | as-written member | corrected member |
|---|---|---|---|---|---|---|
| new/src/xcpio/cpio_archive.c:449-469 | `buf_len += r` runs on every pass, also when the guarded read was skipped because `buf_len >= buf_size - block_size`. The count of the previous read is added again, and the decoder is shown bytes that were never read, past the end of the buffer. | 512-byte blocks (a 2048-byte buffer); an archive of empty files with 80-byte headers; every read returns a whole block. Pass five skips the read at 1728 buffered bytes and hands the decoder 2240 bytes. | Add `r` only after a read that ran. When a header is still incomplete and no further block can be read, refuse it, as the comment at lines 486-490 says. | not executed | ScanFinding.StaleReadOverruns | XcpioArchive.Archive.BeginRead |

The same statement appears at new/src/cfgstore/cpio_archive.c:253. There it is
harmless: that loop reads whenever `buf_len < 1024`, and `CfgArchive.Archive.BeginRead`
proves, as a loop invariant, that the buffer is never full at the top of a pass.

`char_trim_crlf` is kept as written. It
examines index 0 only when the string has length 1. So "\r\n" becomes "\r",
and trimming is not idempotent (`XcpioMain.TrimExamples`,
`XcpioMain.TrimNotIdempotent`).
