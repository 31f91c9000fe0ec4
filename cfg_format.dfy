/** The header codec of the cfgstore engine.  Its serialiser is a
    debugging stand-in for the ODC layout: eleven decimal fields separated
    by single spaces, formatted into a 256-byte buffer and written with one
    write(2).  Its deserialiser refuses everything. */
module CfgFormat {
  import opened CpioTypes
  import opened ArchiveIo
  import Lookahead

  /** The ODC magic 070707 (octal), printed in decimal. */
  const OdcMagic: nat := 29127

  /** The size of the formatting buffer. */
  const TextBufSize: nat := 256

  predicate IsDigit(c: char) {
    '0' <= c <= '9'
  }

  /** Every character of a formatted header: a digit, a minus sign or the
      separating space. */
  predicate IsTextChar(c: char) {
    IsDigit(c) || c == '-' || c == ' '
  }

  predicate AllDigits(s: string) {
    forall i :: 0 <= i < |s| ==> IsDigit(s[i])
  }

  /** `n` in decimal, without leading zeros. */
  function Decimal(n: nat): (s: string)
    ensures 1 <= |s| && AllDigits(s)
    ensures s[0] == '0' ==> n == 0
    decreases n
  {
    var d := [('0' as int + n % 10) as char];
    if n < 10 then d else Decimal(n / 10) + d
  }

  /** The value of a string of decimal digits. */
  function ParseDecimal(s: string): nat
    requires AllDigits(s)
  {
    if s == [] then 0 else ParseDecimal(s[..|s| - 1]) * 10 + (s[|s| - 1] as int - '0' as int)
  }

  /** Reading back what `Decimal` printed gives the number. */
  lemma {:induction false} DecimalRoundTrip(n: nat)
    ensures ParseDecimal(Decimal(n)) == n
    decreases n
  {
    if n >= 10 {
      DecimalRoundTrip(n / 10);
      var s := Decimal(n);
      assert s[..|s| - 1] == Decimal(n / 10);
    }
  }

  function Pow10(k: nat): (p: nat)
    ensures p >= 1
  {
    if k == 0 then 1 else 10 * Pow10(k - 1)
  }

  /** A number below 10^k takes at most k digits. */
  lemma {:induction false} DecimalLength(n: nat, k: nat)
    requires 1 <= k && n < Pow10(k)
    ensures |Decimal(n)| <= k
    decreases k
  {
    if n >= 10 {
      DecimalLength(n / 10, k - 1);
    }
  }

  /** `%llu` of a value cast to unsigned long long. */
  function FormatU64(x: nat): (s: string)
    ensures 1 <= |s| <= 20 && AllDigits(s)
  {
    U64Width(x % 0x1_0000_0000_0000_0000);
    Decimal(x % 0x1_0000_0000_0000_0000)
  }

  /** A `%llu` field reads back as the value modulo 2^64. */
  lemma FormatU64RoundTrip(x: nat)
    ensures ParseDecimal(FormatU64(x)) == x % 0x1_0000_0000_0000_0000
  {
    DecimalRoundTrip(x % 0x1_0000_0000_0000_0000);
  }

  /** `%d` of a field: its low 32 bits read as a two's-complement int. */
  function FormatInt(x: nat): (s: string)
    ensures 1 <= |s| <= 11 && forall i :: 0 <= i < |s| ==> IsTextChar(s[i])
  {
    var v := x % 0x1_0000_0000;
    if v < 0x8000_0000 then
      IntWidth(v); Decimal(v)
    else
      IntWidth(0x1_0000_0000 - v); "-" + Decimal(0x1_0000_0000 - v)
  }

  /** A `%d` field reads back as the low 32 bits of the value taken as
      two's complement: the digits of a non-negative value, or a minus
      sign and the digits of the magnitude. */
  lemma FormatIntRoundTrip(x: nat)
    ensures x % 0x1_0000_0000 < 0x8000_0000 ==>
              AllDigits(FormatInt(x)) && ParseDecimal(FormatInt(x)) == x % 0x1_0000_0000
    ensures x % 0x1_0000_0000 >= 0x8000_0000 ==>
              FormatInt(x)[0] == '-' && AllDigits(FormatInt(x)[1..]) &&
              ParseDecimal(FormatInt(x)[1..]) == 0x1_0000_0000 - x % 0x1_0000_0000
  {
    var v := x % 0x1_0000_0000;
    if v < 0x8000_0000 {
      DecimalRoundTrip(v);
    } else {
      DecimalRoundTrip(0x1_0000_0000 - v);
      assert FormatInt(x)[1..] == Decimal(0x1_0000_0000 - v);
    }
  }

  /** The eleven fields of the debugging header, in the order of the ODC
      layout: magic, dev, ino, mode, uid, gid, nlink, rdev, mtime,
      namesize (the name length, terminator not counted) and filesize. */
  function Fields(st: Stat, name: string): seq<string> {
    [Decimal(OdcMagic), FormatU64(st.dev), FormatU64(st.ino), FormatInt(st.mode),
     FormatInt(st.uid), FormatInt(st.gid), FormatInt(st.nlink), FormatInt(st.rdev),
     FormatU64(st.mtime), FormatU64(|name|), FormatU64(st.size)]
  }

  /** Fields separated by single spaces. */
  function Join(fs: seq<string>): string
    requires fs != []
  {
    if |fs| == 1 then fs[0] else Join(fs[..|fs| - 1]) + [' '] + fs[|fs| - 1]
  }

  /** The position of the last space, if any. */
  function LastSpace(s: string): (r: Option<nat>)
    ensures r.Some? ==> r.value < |s| && s[r.value] == ' ' &&
                        forall i :: r.value < i < |s| ==> s[i] != ' '
    ensures r.None? ==> forall i :: 0 <= i < |s| ==> s[i] != ' '
  {
    if s == [] then None
    else if s[|s| - 1] == ' ' then Some(|s| - 1)
    else LastSpace(s[..|s| - 1])
  }

  /** The space-separated fields of a line. */
  function Split(s: string): (fs: seq<string>)
    ensures fs != []
    decreases |s|
  {
    match LastSpace(s)
    case None => [s]
    case Some(i) => Split(s[..i]) + [s[i + 1..]]
  }

  predicate IsField(f: string) {
    f != [] && forall i :: 0 <= i < |f| ==> IsTextChar(f[i]) && f[i] != ' '
  }

  /** Splitting joined fields gives the fields back. */
  lemma {:induction false} SplitJoin(fs: seq<string>)
    requires fs != [] && forall k :: 0 <= k < |fs| ==> IsField(fs[k])
    ensures Split(Join(fs)) == fs
    decreases |fs|
  {
    if |fs| > 1 {
      var init := fs[..|fs| - 1];
      var f := fs[|fs| - 1];
      var j := Join(init);
      var s := j + [' '] + f;
      assert s == Join(fs);
      assert LastSpace(s) == Some(|j|) by {
        LastSpaceAfter(j, f);
      }
      assert s[..|j|] == j && s[|j| + 1..] == f;
      SplitJoin(init);
    }
  }

  lemma {:induction false} LastSpaceAfter(j: string, f: string)
    requires forall i :: 0 <= i < |f| ==> f[i] != ' '
    ensures LastSpace(j + [' '] + f) == Some(|j|)
    decreases |f|
  {
    if f != [] {
      var s := j + [' '] + f;
      assert s[..|s| - 1] == j + [' '] + f[..|f| - 1];
      LastSpaceAfter(j, f[..|f| - 1]);
    }
  }

  /** The text `cpio_header_serialise` formats for a header that owns a
      filename. */
  function Text(h: Header): string
    requires h.filename.Some?
  {
    Join(Fields(h.st, h.filename.value))
  }

  lemma FieldsAreFields(st: Stat, name: string)
    ensures forall k :: 0 <= k < 11 ==> IsField(Fields(st, name)[k])
  {
  }

  /** The formatted text splits back into its eleven fields: the first is
      the magic 29127, and the namesize and filesize fields read back as
      the name length and the body length (modulo 2^64). */
  lemma TextRoundTrip(h: Header)
    requires h.filename.Some?
    ensures |Split(Text(h))| == 11
    ensures Split(Text(h)) == Fields(h.st, h.filename.value)
    ensures Split(Text(h))[0] == "29127"
    ensures ParseDecimal(Split(Text(h))[9]) == |h.filename.value| % 0x1_0000_0000_0000_0000
    ensures ParseDecimal(Split(Text(h))[10]) == h.st.size % 0x1_0000_0000_0000_0000
  {
    FieldsAreFields(h.st, h.filename.value);
    SplitJoin(Fields(h.st, h.filename.value));
    MagicText();
    FormatU64RoundTrip(|h.filename.value|);
    FormatU64RoundTrip(h.st.size);
  }

  lemma {:induction false} JoinLength(fs: seq<string>)
    requires fs != []
    ensures |Join(fs)| == SumLengths(fs) + |fs| - 1
    decreases |fs|
  {
    if |fs| > 1 {
      JoinLength(fs[..|fs| - 1]);
      assert fs[..|fs| - 1][..|fs| - 2] == fs[..|fs| - 2];
    }
  }

  function SumLengths(fs: seq<string>): nat {
    if fs == [] then 0 else SumLengths(fs[..|fs| - 1]) + |fs[|fs| - 1]|
  }

  /** A value below 2^64 prints in at most twenty digits. */
  lemma U64Width(n: nat)
    requires n < 0x1_0000_0000_0000_0000
    ensures |Decimal(n)| <= 20
  {
    assert Pow10(10) == 10000000000;
    assert Pow10(20) == 100000000000000000000;
    DecimalLength(n, 20);
  }

  /** A magnitude of at most 2^31 prints in at most ten digits. */
  lemma IntWidth(n: nat)
    requires n <= 0x8000_0000
    ensures |Decimal(n)| <= 10
  {
    assert Pow10(10) == 10000000000;
    DecimalLength(n, 10);
  }

  /** The widest text is 5 + 5 * 20 + 5 * 11 digits and signs plus ten
      spaces, 170 characters: it always fits the 256-byte buffer, so the
      length `snprintf` returns is the length of the whole text. */
  lemma TextFits(h: Header)
    requires h.filename.Some?
    ensures |Text(h)| <= 170 < TextBufSize
  {
    var fs := Fields(h.st, h.filename.value);
    JoinLength(fs);
    SumEleven(fs);
    FieldWidths(h.st, h.filename.value);
  }

  /** Each field's widest form: five digits of magic, at most twenty for
      a `%llu` field and at most eleven for a `%d` field. */
  lemma FieldWidths(st: Stat, name: string)
    ensures var fs := Fields(st, name);
            |fs[0]| == 5 && |fs[1]| <= 20 && |fs[2]| <= 20 && |fs[3]| <= 11 &&
            |fs[4]| <= 11 && |fs[5]| <= 11 && |fs[6]| <= 11 && |fs[7]| <= 11 &&
            |fs[8]| <= 20 && |fs[9]| <= 20 && |fs[10]| <= 20
  {
    MagicText();
  }

  lemma MagicText()
    ensures Decimal(OdcMagic) == "29127"
  {
    assert Decimal(2) == "2";
    assert Decimal(29) == "29";
    assert Decimal(291) == "291";
    assert Decimal(2912) == "2912";
  }

  lemma SumEleven(fs: seq<string>)
    requires |fs| == 11
    ensures SumLengths(fs) == |fs[0]| + |fs[1]| + |fs[2]| + |fs[3]| + |fs[4]| + |fs[5]| +
                              |fs[6]| + |fs[7]| + |fs[8]| + |fs[9]| + |fs[10]|
  {
    assert fs[..11] == fs;
    PrefixSum(fs, 1); PrefixSum(fs, 2); PrefixSum(fs, 3); PrefixSum(fs, 4);
    PrefixSum(fs, 5); PrefixSum(fs, 6); PrefixSum(fs, 7); PrefixSum(fs, 8);
    PrefixSum(fs, 9); PrefixSum(fs, 10); PrefixSum(fs, 11);
    assert fs[..0] == [];
  }

  lemma PrefixSum(fs: seq<string>, k: nat)
    requires 0 < k <= |fs|
    ensures SumLengths(fs[..k]) == SumLengths(fs[..k - 1]) + |fs[k - 1]|
  {
    assert fs[..k][..k - 1] == fs[..k - 1];
  }

  /** The text as the bytes handed to write(2). */
  function Octets(s: string): (b: seq<byte>)
    requires forall i :: 0 <= i < |s| ==> IsTextChar(s[i])
    ensures |b| == |s|
  {
    if s == [] then [] else assert IsTextChar(s[0]); var b: byte := s[0] as int; [b] + Octets(s[1..])
  }

  lemma JoinChars(fs: seq<string>)
    requires fs != [] && forall k :: 0 <= k < |fs| ==> IsField(fs[k])
    ensures forall i :: 0 <= i < |Join(fs)| ==> IsTextChar(Join(fs)[i])
    decreases |fs|
  {
    if |fs| > 1 {
      JoinChars(fs[..|fs| - 1]);
    }
  }

  /** The return value of `cpio_header_serialise` once the text is
      formatted and written: 0 when write(2) returned 0, 1 when it wrote
      the whole text, -1 for an error or a short write.  This is a
      definition; its contract spells out each case of it. */
  function SerialiseStatus(wr: int, len: nat): (r: int)
    ensures r == 0 <==> wr == 0
    ensures r == 1 <==> wr != 0 && wr == len
    ensures r == -1 <==> wr != 0 && wr != len
  {
    if wr == 0 then 0 else if wr != len then -1 else 1
  }

  /** `cpio_header_serialise(fd, c)`: a header without a filename is
      refused before anything is written; otherwise the formatted text is
      handed to write(2) in one call. */
  method Serialise(out: Sink, h: Header) returns (r: int)
    modifies out
    ensures h.filename.None? ==>
              r == -1 && out.data == old(out.data) && out.script == old(out.script) && out.calls == old(out.calls)
    ensures h.filename.Some? ==>
              (forall i :: 0 <= i < |Text(h)| ==> IsTextChar(Text(h)[i])) &&
              out.calls == old(out.calls) + [Octets(Text(h))] &&
              out.script == Tail(old(out.script)) &&
              out.data == old(out.data) + Octets(Text(h))[..Accepted(WriteResult(old(out.script), |Text(h)|), |Text(h)|)] &&
              r == SerialiseStatus(WriteResult(old(out.script), |Text(h)|), |Text(h)|)
  {
    if h.filename.None? {
      return -1;
    }
    FieldsAreFields(h.st, h.filename.value);
    JoinChars(Fields(h.st, h.filename.value));
    TextFits(h);
    var text := Octets(Text(h));
    var wr := out.Write(text);
    r := SerialiseStatus(wr, |text|);
  }

  /** `cpio_header_create(st, fn)`: a copy of the stat record and of the
      filename.  `allocOk` is the outcome of calloc and `dupOk` that of
      strdup; a failed strdup leaves the filename NULL.  This is a
      definition; its contract spells out each case of it. */
  function HeaderCreate(st: Stat, name: string, allocOk: bool, dupOk: bool): (c: Option<Header>)
    ensures c.None? <==> !allocOk
    ensures c.Some? ==> c.value.st == st
    ensures c.Some? ==> (c.value.filename.Some? <==> dupOk)
    ensures c.Some? && dupOk ==> c.value.filename.value == name
  {
    if !allocOk then None else Some(Header(st, if dupOk then Some(name) else None))
  }

  /** `cpio_header_deserialise`: the cfgstore decoder is a stub that
      reports an error for every input. */
  function Deserialise(buf: seq<byte>): Lookahead.Decoded {
    Lookahead.DecodeError
  }

  /** The stub never parses a header, so it meets the decoder contract
      and the only way it can answer is an error. */
  lemma StubDecoder()
    ensures Lookahead.DecoderContract(Deserialise)
    ensures forall s :: !Deserialise(s).Parsed? && !Deserialise(s).NeedMore?
  {
  }
}
