/** The xcpio command line: trimming line breaks from a manifest line,
    collecting the options, choosing between extract, list and create,
    creating the archive handle with the chosen block size, and loading
    the manifest. */
module XcpioMain {
  import opened CpioTypes
  import opened ArchiveIo
  import XcpioArchive

  // ----- char_trim_crlf -----

  predicate IsBreak(c: char) {
    c == '\r' || c == '\n'
  }

  /** strlen: the index of the first NUL, or the whole length. */
  function CLen(s: seq<char>): (n: nat)
    ensures n <= |s|
    ensures forall i :: 0 <= i < n ==> s[i] != '\0'
    ensures n < |s| ==> s[n] == '\0'
  {
    if s == [] || s[0] == '\0' then 0 else 1 + CLen(s[1..])
  }

  /** The C string held by a character buffer. */
  function CStr(s: seq<char>): string {
    s[..CLen(s)]
  }

  /** The length of the longest run of line breaks ending `s`. */
  function Breaks(s: string): (b: nat)
    ensures b <= |s|
  {
    if s == [] || !IsBreak(s[|s| - 1]) then 0 else Breaks(s[..|s| - 1]) + 1
  }

  /** How many characters `char_trim_crlf` keeps: the trailing line
      breaks go, except that the first character is only ever looked at
      in a one-character string, so a string made only of breaks keeps
      its first one unless it has length one. */
  function KeptLength(s: string): (k: nat)
    ensures k <= |s|
  {
    if |s| >= 2 && Breaks(s) == |s| then 1 else |s| - Breaks(s)
  }

  /** The string after trimming. */
  function Trimmed(s: string): string {
    s[..KeptLength(s)]
  }

  /** A run of breaks after a non-break (or the start) is exactly the
      trailing break run. */
  lemma {:induction false} BreaksFrom(s: string, j: nat)
    requires j <= |s|
    requires forall i :: j <= i < |s| ==> IsBreak(s[i])
    requires j == 0 || !IsBreak(s[j - 1])
    ensures Breaks(s) == |s| - j
    decreases |s|
  {
    if |s| > j {
      BreaksFrom(s[..|s| - 1], j);
    }
  }

  /** The trailing run consists of breaks and, when it is not the whole
      string, is preceded by a non-break. */
  lemma {:induction false} BreaksAreBreaks(s: string)
    ensures forall i :: |s| - Breaks(s) <= i < |s| ==> IsBreak(s[i])
    ensures Breaks(s) < |s| ==> !IsBreak(s[|s| - Breaks(s) - 1])
    decreases |s|
  {
    if s != [] && IsBreak(s[|s| - 1]) {
      BreaksAreBreaks(s[..|s| - 1]);
    }
  }

  /** Trimming removes only line breaks; what it keeps does not end in a
      break, except for the single character kept from a string made
      only of breaks. */
  lemma TrimRemovesOnlyBreaks(s: string)
    ensures Trimmed(s) <= s
    ensures forall i :: KeptLength(s) <= i < |s| ==> IsBreak(s[i])
    ensures KeptLength(s) == 0 <==> s == [] || (|s| == 1 && IsBreak(s[0]))
    ensures KeptLength(s) > 0 && !(|s| >= 2 && Breaks(s) == |s|) ==> !IsBreak(s[KeptLength(s) - 1])
  {
    BreaksAreBreaks(s);
  }

  /** The empty string is left alone, "\n" and "\r" become empty, and
      "\r\n" keeps its carriage return. */
  lemma TrimExamples()
    ensures Trimmed("") == ""
    ensures Trimmed("\n") == "" && Trimmed("\r") == ""
    ensures Trimmed("\r\n") == "\r"
    ensures Trimmed("a.c\r\n") == "a.c"
  {
    BreaksFrom("\r\n", 0);
    BreaksFrom("a.c\r\n", 3);
  }

  /** Trimming twice can remove more than trimming once. */
  lemma TrimNotIdempotent()
    ensures Trimmed(Trimmed("\r\n")) != Trimmed("\r\n")
  {
    TrimExamples();
  }

  /** `char_trim_crlf(s)`: walks back from the last character of the C
      string, overwriting line breaks with NUL, and stops at the first
      other character or when the walk reaches index 0.  Only the trimmed
      run changes, and only to NUL. */
  method TrimCrlf(s: array<char>)
    requires exists i :: 0 <= i < s.Length && s[i] == '\0'
    modifies s
    ensures var n := CLen(old(s[..]));
            var k := KeptLength(old(s[..])[..n]);
            forall i :: 0 <= i < s.Length ==> s[i] == (if k <= i < n then '\0' else old(s[i]))
  {
    ghost var s0 := s[..];
    ghost var n := CLen(s[..]);
    var l: int := CLen(s[..]);
    if l == 0 {
      return;
    }
    l := l - 1;
    while true
      invariant 0 <= l < n && (l == n - 1 || l >= 1)
      invariant forall i :: l < i < n ==> IsBreak(s0[i])
      invariant forall i :: 0 <= i < s.Length ==> s[i] == (if l < i < n then '\0' else s0[i])
      decreases l
    {
      if s[l] == '\r' || s[l] == '\n' {
        s[l] := '\0';
        if l - 1 > 0 {
          l := l - 1;
        } else {
          break;
        }
      } else {
        BreaksFrom(s0[..n], l + 1);
        assert KeptLength(s0[..n]) == l + 1;
        return;
      }
    }
    // the walk ended after clearing index `l`, which is 0 or 1
    if l == 1 {
      if IsBreak(s0[0]) {
        BreaksFrom(s0[..n], 0);
      } else {
        BreaksFrom(s0[..n], 1);
      }
      assert KeptLength(s0[..n]) == 1;
    } else {
      BreaksFrom(s0[..n], 0);
      assert KeptLength(s0[..n]) == 0;
    }
  }

  /** After trimming, the C string is the trimmed string. */
  lemma TrimmedCStr(before: seq<char>, after: seq<char>)
    requires |after| == |before|
    requires var n := CLen(before);
             var k := KeptLength(before[..n]);
             forall i :: 0 <= i < |after| ==> after[i] == (if k <= i < n then '\0' else before[i])
    requires exists i :: 0 <= i < |before| && before[i] == '\0'
    ensures CStr(after) == Trimmed(CStr(before))
  {
    var n := CLen(before);
    var k := KeptLength(before[..n]);
    assert k < |after| && after[k] == '\0' by {
      if k == n {
        assert n < |before|;
      }
    }
    CLenAt(after, k);
  }

  /** A buffer whose first NUL is at `k` has C length `k`. */
  lemma {:induction false} CLenAt(s: seq<char>, k: nat)
    requires k < |s| && s[k] == '\0'
    requires forall i :: 0 <= i < k ==> s[i] != '\0'
    ensures CLen(s) == k
    decreases k
  {
    if k > 0 {
      CLenAt(s[1..], k - 1);
    }
  }

  // ----- options and dispatch -----

  /** One option as getopt returns it; `-b` carries atoi's result. */
  datatype Opt = BlockOpt(size: int) | CreateOpt | DirOpt(dir: string) | ExtractOpt
               | FileOpt(file: string) | ListOpt | ManifestOpt(file: string) | Unknown

  /** The variables the option loop of `main` sets. */
  datatype Settings = Settings(blockSize: int, create: bool, extract: bool, list: bool,
                               baseDir: Option<string>, archive: Option<string>,
                               manifest: Option<string>)

  const Initial: Settings := Settings(XcpioArchive.DefaultBlockSize, false, false, false, None, None, None)

  /** What `main` goes on to do: exit with 127 (usage or a rejected
      combination), extract or list, or create. */
  datatype Action = Exit127
                  | Extract(baseDir: Option<string>, archive: string, doExtract: bool, blockSize: int)
                  | Create(baseDir: Option<string>, manifest: string, archive: string, blockSize: int)

  predicate HasArchive(opts: seq<Opt>) {
    exists i :: 0 <= i < |opts| && opts[i].FileOpt?
  }

  predicate HasManifest(opts: seq<Opt>) {
    exists i :: 0 <= i < |opts| && opts[i].ManifestOpt?
  }

  predicate HasUnknown(opts: seq<Opt>) {
    exists i :: 0 <= i < |opts| && opts[i].Unknown?
  }

  /** The value of the last `-b`, or the default without one. */
  function LastBlockSize(opts: seq<Opt>): int {
    if opts == [] then XcpioArchive.DefaultBlockSize
    else if opts[|opts| - 1].BlockOpt? then opts[|opts| - 1].size
    else LastBlockSize(opts[..|opts| - 1])
  }

  /** The argument of the last `-f`. */
  function LastArchive(opts: seq<Opt>): Option<string> {
    if opts == [] then None
    else if opts[|opts| - 1].FileOpt? then Some(opts[|opts| - 1].file)
    else LastArchive(opts[..|opts| - 1])
  }

  /** The argument of the last `-m`. */
  function LastManifest(opts: seq<Opt>): Option<string> {
    if opts == [] then None
    else if opts[|opts| - 1].ManifestOpt? then Some(opts[|opts| - 1].file)
    else LastManifest(opts[..|opts| - 1])
  }

  /** The argument of the last `-d`. */
  function LastDir(opts: seq<Opt>): Option<string> {
    if opts == [] then None
    else if opts[|opts| - 1].DirOpt? then Some(opts[|opts| - 1].dir)
    else LastDir(opts[..|opts| - 1])
  }

  /** The effect of one option on the settings. */
  function Apply(s: Settings, o: Opt): Settings {
    match o
    case BlockOpt(n) => s.(blockSize := n)
    case CreateOpt => s.(create := true)
    case DirOpt(d) => s.(baseDir := Some(d))
    case ExtractOpt => s.(extract := true)
    case FileOpt(f) => s.(archive := Some(f))
    case ListOpt => s.(list := true)
    case ManifestOpt(f) => s.(manifest := Some(f))
    case Unknown => s
  }

  /** The settings after the options, in order. */
  function Collect(opts: seq<Opt>): Settings {
    if opts == [] then Initial else Apply(Collect(opts[..|opts| - 1]), opts[|opts| - 1])
  }

  /** Collecting the options remembers exactly which flags were given
      and keeps the last value of each option that takes one. */
  lemma CollectMeaning(opts: seq<Opt>)
    ensures Collect(opts).create <==> CreateOpt in opts
    ensures Collect(opts).extract <==> ExtractOpt in opts
    ensures Collect(opts).list <==> ListOpt in opts
    ensures Collect(opts).archive.Some? <==> HasArchive(opts)
    ensures Collect(opts).archive == LastArchive(opts)
    ensures Collect(opts).manifest.Some? <==> HasManifest(opts)
    ensures Collect(opts).manifest == LastManifest(opts)
    ensures Collect(opts).baseDir == LastDir(opts)
    ensures Collect(opts).blockSize == LastBlockSize(opts)
  {
    CollectFlags(opts);
    CollectValues(opts);
    CollectManifest(opts);
  }

  lemma {:induction false} CollectFlags(opts: seq<Opt>)
    ensures Collect(opts).create <==> CreateOpt in opts
    ensures Collect(opts).extract <==> ExtractOpt in opts
    ensures Collect(opts).list <==> ListOpt in opts
    decreases |opts|
  {
    if opts != [] {
      var init := opts[..|opts| - 1];
      CollectFlags(init);
      assert opts == init + [opts[|opts| - 1]];
    }
  }

  lemma {:induction false} CollectValues(opts: seq<Opt>)
    ensures Collect(opts).archive.Some? <==> HasArchive(opts)
    ensures Collect(opts).archive == LastArchive(opts)
    ensures Collect(opts).manifest == LastManifest(opts)
    ensures Collect(opts).baseDir == LastDir(opts)
    ensures Collect(opts).blockSize == LastBlockSize(opts)
    decreases |opts|
  {
    if opts != [] {
      var init := opts[..|opts| - 1];
      CollectValues(init);
      assert forall i :: 0 <= i < |init| ==> init[i] == opts[i];
    }
  }

  lemma {:induction false} CollectManifest(opts: seq<Opt>)
    ensures Collect(opts).manifest.Some? <==> HasManifest(opts)
    decreases |opts|
  {
    if opts != [] {
      var init := opts[..|opts| - 1];
      CollectManifest(init);
      if opts[|opts| - 1].ManifestOpt? {
        assert HasManifest(opts);
      } else {
        assert HasManifest(opts) == HasManifest(init) by {
          assert forall i :: 0 <= i < |init| ==> init[i] == opts[i];
        }
      }
    }
  }

  /** The option loop of `main`: an unknown option ends the program
      through `usage` with 127; otherwise every option is applied in
      order. */
  method ParseOptions(opts: seq<Opt>) returns (s: Settings, usage: bool)
    ensures usage <==> HasUnknown(opts)
    ensures !usage ==> s == Collect(opts)
  {
    s := Initial;
    var i := 0;
    while i < |opts|
      invariant 0 <= i <= |opts|
      invariant s == Collect(opts[..i])
      invariant forall j :: 0 <= j < i ==> !opts[j].Unknown?
    {
      if opts[i].Unknown? {
        return s, true;
      }
      assert opts[..i + 1][..i] == opts[..i];
      s := Apply(s, opts[i]);
      i := i + 1;
    }
    assert opts[..i] == opts;
    usage := false;
  }

  /** The checks of `main` after the options: `-l` turns on extraction,
      and then both or neither of create and extract, a missing `-f`, or
      create without `-m` exit with 127.  Listing extracts with
      `do_extract` false. */
  function Decide(s: Settings): (a: Action)
    ensures a.Exit127? <==>
              ((s.extract || s.list) == s.create) || s.archive.None? || (s.create && s.manifest.None?)
    ensures a.Extract? ==> a.doExtract == !s.list && s.archive == Some(a.archive) &&
                           a.baseDir == s.baseDir && a.blockSize == s.blockSize
    ensures a.Create? ==> s.create && s.archive == Some(a.archive) && s.manifest == Some(a.manifest) &&
                          a.baseDir == s.baseDir && a.blockSize == s.blockSize
  {
    var extract := s.extract || s.list;
    if extract && s.create then Exit127
    else if !extract && !s.create then Exit127
    else if s.archive.None? then Exit127
    else if s.create && s.manifest.None? then Exit127
    else if extract then Extract(s.baseDir, s.archive.value, !s.list, s.blockSize)
    else Create(s.baseDir, s.manifest.value, s.archive.value, s.blockSize)
  }

  /** `main` up to the point where it hands over to extraction or
      creation. */
  method Run(opts: seq<Opt>) returns (a: Action)
    ensures a.Exit127? <==>
              HasUnknown(opts) ||
              ((ExtractOpt in opts || ListOpt in opts) == (CreateOpt in opts)) ||
              !HasArchive(opts) || (CreateOpt in opts && !HasManifest(opts))
    ensures a.Extract? ==> a.doExtract == (ListOpt !in opts) && Some(a.archive) == LastArchive(opts) &&
                           a.baseDir == LastDir(opts) && a.blockSize == LastBlockSize(opts)
    ensures a.Create? ==> CreateOpt in opts && Some(a.archive) == LastArchive(opts) &&
                          Some(a.manifest) == LastManifest(opts) &&
                          a.baseDir == LastDir(opts) && a.blockSize == LastBlockSize(opts)
  {
    var s, usage := ParseOptions(opts);
    if usage {
      return Exit127;
    }
    CollectMeaning(opts);
    a := Decide(s);
  }

  /** Listing never extracts: with `-l` the run either exits or lists
      with `do_extract` false. */
  lemma ListNeverExtracts(opts: seq<Opt>)
    requires ListOpt in opts && !HasUnknown(opts)
    ensures Decide(Collect(opts)).Exit127? || (Decide(Collect(opts)).Extract? && !Decide(Collect(opts)).doExtract)
  {
    CollectMeaning(opts);
  }

  /** `-l` together with `-c` is rejected like `-e` together with `-c`. */
  lemma ListWithCreateRejected(opts: seq<Opt>)
    requires ListOpt in opts && CreateOpt in opts
    ensures Decide(Collect(opts)).Exit127?
  {
    CollectMeaning(opts);
  }

  // ----- handle creation and the manifest loop -----

  /** The block size a handle ends up with after `set_blocksize(a, bs)`
      whose result is not checked: a non-positive request leaves the
      default. */
  function ChosenBlockSize(requested: int): (b: int)
    ensures b > 0
    ensures requested > 0 <==> b == requested
  {
    if requested > 0 then requested else XcpioArchive.DefaultBlockSize
  }

  /** `cpio_archive_create` followed by `cpio_archive_set_blocksize`, as
      both `cpio_archive_extract` and `cpio_archive_output_create` do,
      ignoring the result: an invalid `-b` silently keeps the default. */
  method NewArchive(mode: Mode, file: Sink, blockSize: int) returns (a: XcpioArchive.Archive)
    ensures fresh(a) && fresh(a.files) && a.mode == mode && a.out == file
    ensures a.blockSize == ChosenBlockSize(blockSize) && a.fd == -1
    ensures a.files.Consistent() && a.files.Entries() == []
  {
    a := new XcpioArchive.Archive(mode, file);
    var _ := a.SetBlocksize(blockSize);
  }

  /** The line names in order, keeping those whose flag is set. */
  function Select(names: seq<string>, kept: seq<bool>): seq<string>
    requires |kept| == |names|
  {
    if names == [] then []
    else Select(names[..|names| - 1], kept[..|kept| - 1]) +
         (if kept[|kept| - 1] then [names[|names| - 1]] else [])
  }

  /** The name a manifest line contributes: the C string fgets stored,
      trimmed of its line break. */
  function LineName(line: seq<char>): string {
    Trimmed(CStr(line))
  }

  /** One pass of the manifest loop: the line fgets stored is trimmed in
      place and its C string is added to the manifest, which fails only
      when the list must grow and the allocation fails. */
  method AddLine(a: XcpioArchive.Archive, line: seq<char>, allocOk: bool) returns (r: int)
    requires a.files.Consistent()
    modifies a.files, a.files.slots
    ensures a.files.Consistent()
    ensures a.files.slots == old(a.files.slots) || fresh(a.files.slots)
    ensures allocOk ==> r == 0
    ensures a.files.Entries() == old(a.files.Entries()) + (if r == 0 then [LineName(line)] else [])
  {
    var buf := new char[|line| + 1](j => if 0 <= j < |line| then line[j] else '\0');
    assert buf[..] == line + ['\0'] && buf[|line|] == '\0';
    ghost var before := buf[..];
    TrimCrlf(buf);
    TrimmedCStr(before, buf[..]);
    CStrOfLine(line);
    var name := buf[..CLen(buf[..])];
    r := a.WriteAddManifest(name, allocOk);
  }

  /** The manifest loop of `cpio_archive_output_create`: every line read
      by fgets is trimmed and added to the manifest; a line that cannot be
      added is skipped and the loop goes on.  `lines` are the lines fgets
      returns, `allocOk` the outcome of the allocation each addition may
      need.  The manifest gains the names of the lines that were added,
      in order, and every line whose allocation succeeds is added. */
  method LoadManifest(a: XcpioArchive.Archive, lines: seq<seq<char>>, allocOk: seq<bool>)
    returns (ghost added: seq<bool>)
    requires |allocOk| == |lines|
    requires a.files.Consistent()
    modifies a.files, a.files.slots
    ensures a.files.Consistent() && |added| == |lines|
    ensures forall i :: 0 <= i < |lines| && allocOk[i] ==> added[i]
    ensures a.files.Entries() == old(a.files.Entries()) + Select(Names(lines), added)
  {
    added := [];
    var i := 0;
    while i < |lines|
      invariant 0 <= i <= |lines| && |added| == i
      invariant a.files.Consistent()
      invariant a.files.slots == old(a.files.slots) || fresh(a.files.slots)
      invariant forall j :: 0 <= j < i && allocOk[j] ==> added[j]
      invariant a.files.Entries() == old(a.files.Entries()) + Select(Names(lines[..i]), added)
    {
      var r := AddLine(a, lines[i], allocOk[i]);
      SelectNext(lines, i, added, r == 0);
      added := added + [r == 0];
      i := i + 1;
    }
    assert lines[..i] == lines;
  }

  /** Taking one more line adds its name exactly when it was kept. */
  lemma SelectNext(lines: seq<seq<char>>, i: nat, added: seq<bool>, kept: bool)
    requires i < |lines| && |added| == i
    ensures Select(Names(lines[..i + 1]), added + [kept]) ==
            Select(Names(lines[..i]), added) + (if kept then [LineName(lines[i])] else [])
  {
    assert lines[..i + 1][..i] == lines[..i];
    assert (added + [kept])[..i] == added;
  }

  /** The names the lines contribute, in order. */
  function Names(lines: seq<seq<char>>): (names: seq<string>)
    ensures |names| == |lines|
  {
    if lines == [] then [] else Names(lines[..|lines| - 1]) + [LineName(lines[|lines| - 1])]
  }

  /** NUL-terminating a line does not change its C string. */
  lemma CStrOfLine(line: seq<char>)
    ensures CStr(line + ['\0']) == CStr(line)
  {
    var s := line + ['\0'];
    if CLen(line) < |line| {
      CLenAt(s, CLen(line));
    } else {
      CLenAt(s, |line|);
    }
  }
}
