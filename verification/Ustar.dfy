/**
  A writer and a reader of the ustar interchange format (pax utility,
  POSIX.1-2017): 512-byte headers with octal numbers and a checksum, contents
  padded to whole blocks, two zero blocks at the end.
 */
module Ustar {
  import opened Common

  const BLOCK := 512

  /** Eleven octal digits of size. */
  const SIZE_LIMIT := 8589934592

  /** The writer emits regular files only; the mode is 0600, owner and times are zero. */
  datatype TarFile = TarFile(name: Bytes, data: Bytes)

  datatype Header = Header(name: Bytes, typeflag: Byte, size: nat)

  datatype Next =
    | End
    | Malformed
    | Item(header: Header, start: nat)   // contents begin at `start`

  function Zeros(n: nat): Bytes {
    Repeat('\0', n)
  }

  function Pow8(w: nat): nat {
    if w == 0 then 1 else 8 * Pow8(w - 1)
  }

  // ---- octal fields ----

  predicate IsOctalDigit(c: Byte) { '0' <= c <= '7' }

  /** `n` in exactly `w` octal digits. */
  function Octal(n: nat, w: nat): (r: Bytes)
    ensures |r| == w && forall i :: 0 <= i < w ==> IsOctalDigit(r[i])
  {
    if w == 0 then [] else Octal(n / 8, w - 1) + [('0' as int + n % 8) as char]
  }

  function OctalValue(s: Bytes): nat
    requires forall i :: 0 <= i < |s| ==> IsOctalDigit(s[i])
  {
    if s == [] then 0
    else
      var c := s[|s| - 1];
      assert IsOctalDigit(c);
      OctalValue(s[..|s| - 1]) * 8 + (c as int - '0' as int)
  }

  predicate IsFiller(c: Byte) { c == ' ' || c == '\0' }

  function StripLeft(s: Bytes): Bytes {
    if s != [] && IsFiller(s[0]) then StripLeft(s[1..]) else s
  }

  function StripRight(s: Bytes): Bytes {
    if s != [] && IsFiller(s[|s| - 1]) then StripRight(s[..|s| - 1]) else s
  }

  /** The text of a field, up to its first NUL. */
  function UpToNul(s: Bytes): Bytes {
    if s == [] || s[0] == '\0' then [] else [s[0]] + UpToNul(s[1..])
  }

  function ParseOctal(field: Bytes): Option<nat> {
    var digits := UpToNul(StripRight(StripLeft(field)));
    if forall i :: 0 <= i < |digits| ==> IsOctalDigit(digits[i]) then Some(OctalValue(digits)) else None
  }

  lemma {:induction false} OctalRoundTrip(n: nat, w: nat)
    requires n < Pow8(w)
    ensures OctalValue(Octal(n, w)) == n
  {
    if w > 0 {
      OctalRoundTrip(n / 8, w - 1);
      var r := Octal(n, w);
      assert r[..w - 1] == Octal(n / 8, w - 1);
    }
  }

  lemma {:induction false} UpToNulText(s: Bytes, k: nat)
    requires forall i :: 0 <= i < |s| ==> s[i] != '\0'
    ensures UpToNul(s + Zeros(k)) == s
  {
    if s != [] {
      assert (s + Zeros(k))[1..] == s[1..] + Zeros(k);
      UpToNulText(s[1..], k);
    }
  }

  /** A number field: digits, a NUL, and in the checksum's case a space. */
  lemma ParseOctalField(n: nat, w: nat, tail: Bytes)
    requires w > 0 && n < Pow8(w) && tail in {['\0'], ['\0', ' ']}
    ensures ParseOctal(Octal(n, w) + tail) == Some(n)
  {
    var d := Octal(n, w);
    var f := d + tail;
    assert StripLeft(f) == f;
    assert (d + ['\0'])[..w] == d && (d + ['\0', ' '])[..w + 1] == d + ['\0'];
    assert StripRight(d) == d;
    assert StripRight(d + ['\0']) == d;
    assert StripRight(f) == d;
    UpToNulText(d, 0);
    assert d + Zeros(0) == d;
    OctalRoundTrip(n, w);
  }

  // ---- headers ----

  function Sum(s: Bytes): (r: nat)
    ensures r <= 255 * |s|
  {
    if s == [] then 0 else Sum(s[..|s| - 1]) + s[|s| - 1] as int
  }

  function Field(s: Bytes, w: nat): (r: Bytes)
    requires |s| <= w
    ensures |r| == w
  {
    s + Zeros(w - |s|)
  }

  /** name, mode, uid, gid */
  function HeaderFront(name: Bytes): (r: Bytes)
    requires |name| <= 100
    ensures |r| == 124
  {
    Field(name, 100) + (Octal(384, 7) + ['\0']) + (Octal(0, 7) + ['\0']) + (Octal(0, 7) + ['\0'])
  }

  /** typeflag, linkname, magic, version, uname, gname, devmajor, devminor, prefix, filler */
  function HeaderBack(): (r: Bytes)
    ensures |r| == 356
  {
    ['0'] + Zeros(100) + "ustar\0" + "00" + Zeros(64) + (Octal(0, 7) + ['\0']) + (Octal(0, 7) + ['\0']) + Zeros(167)
  }

  /** A header around any eight bytes of checksum field. */
  function HeaderAround(name: Bytes, size: nat, chksum: Bytes): (r: Bytes)
    requires |name| <= 100 && |chksum| == 8
    ensures |r| == BLOCK
  {
    HeaderFront(name) + (Octal(size, 11) + ['\0']) + (Octal(0, 11) + ['\0']) + chksum + HeaderBack()
  }

  /** The sum of the header's bytes, its checksum field counting as eight spaces. */
  function Checksum(block: Bytes): nat
    requires |block| == BLOCK
  {
    Sum(block[..148]) + 8 * 32 + Sum(block[156..])
  }

  function FormatHeader(name: Bytes, size: nat): (r: Bytes)
    requires |name| <= 100
    ensures |r| == BLOCK
  {
    var sum := Checksum(HeaderAround(name, size, Repeat(' ', 8)));
    HeaderAround(name, size, Octal(sum, 6) + ['\0', ' '])
  }

  predicate IsZero(s: Bytes) {
    forall i :: 0 <= i < |s| ==> s[i] == '\0'
  }

  /** Links, devices, directories and fifos have no contents whatever their size field says. */
  predicate HeaderOnly(typeflag: Byte) {
    typeflag in "123456"
  }

  function ParseHeader(block: Bytes): Option<Header>
    requires |block| == BLOCK
  {
    var sum, size := ParseOctal(block[148..156]), ParseOctal(block[124..136]);
    if sum != Some(Checksum(block)) || size.None? || block[257..263] != "ustar\0" || block[263..265] != "00" then None
    else
      var suffix, prefix := UpToNul(block[0..100]), UpToNul(block[345..500]);
      var name := if prefix == [] then suffix else prefix + "/" + suffix;
      var typeflag := if block[156] != '\0' then block[156]
                      else if name != [] && name[|name| - 1] == '/' then '5' else '0';
      Some(Header(name, typeflag, if HeaderOnly(typeflag) then 0 else size.value))
  }

  lemma FiveParts(a: Bytes, b: Bytes, c: Bytes, d: Bytes, e: Bytes)
    ensures var t := a + b + c + d + e;
      && t[..|a|] == a && t[|a|..|a| + |b|] == b && t[|a| + |b|..|a| + |b| + |c|] == c
      && t[..|a| + |b| + |c|] == a + b + c
      && t[|a| + |b| + |c|..|a| + |b| + |c| + |d|] == d && t[|a| + |b| + |c| + |d|..] == e
  {
  }

  lemma FrontBegins(name: Bytes)
    requires |name| <= 100
    ensures HeaderFront(name)[0..100] == Field(name, 100)
  {
  }

  lemma HeaderFields(name: Bytes, size: nat, chksum: Bytes)
    requires |name| <= 100 && |chksum| == 8
    ensures var h := HeaderAround(name, size, chksum);
      && h[0..100] == Field(name, 100)
      && h[124..136] == Octal(size, 11) + ['\0']
      && h[..148] == HeaderFront(name) + (Octal(size, 11) + ['\0']) + (Octal(0, 11) + ['\0'])
      && h[148..156] == chksum
      && h[156..] == HeaderBack()
  {
    var h, front := HeaderAround(name, size, chksum), HeaderFront(name);
    FiveParts(front, Octal(size, 11) + ['\0'], Octal(0, 11) + ['\0'], chksum, HeaderBack());
    FrontBegins(name);
    assert h[0..100] == h[..124][0..100];
  }

  lemma BackFields()
    ensures HeaderBack()[0] == '0' && HeaderBack()[101..107] == "ustar\0" && HeaderBack()[107..109] == "00"
    ensures HeaderBack()[189..344] == Zeros(155)
  {
  }

  lemma UpToNulZeros(n: nat)
    ensures UpToNul(Zeros(n)) == []
  {
  }

  /** The fields the reader looks at, in a written header. */
  lemma WrittenFields(name: Bytes, size: nat)
    requires |name| <= 100
    ensures var h := FormatHeader(name, size);
      && h[0..100] == Field(name, 100)
      && h[124..136] == Octal(size, 11) + ['\0']
      && h[148..156] == Octal(Checksum(h), 6) + ['\0', ' ']
      && h[156] == '0' && h[257..263] == "ustar\0" && h[263..265] == "00" && h[345..500] == Zeros(155)
  {
    var sum := Checksum(HeaderAround(name, size, Repeat(' ', 8)));
    var h := FormatHeader(name, size);
    HeaderFields(name, size, Repeat(' ', 8));
    HeaderFields(name, size, Octal(sum, 6) + ['\0', ' ']);
    assert Checksum(h) == sum;
    BackFields();
    assert h[156] == h[156..][0];
    assert h[257..263] == h[156..][101..107] && h[263..265] == h[156..][107..109] && h[345..500] == h[156..][189..344];
  }

  lemma ChecksumFits(block: Bytes)
    requires |block| == BLOCK
    ensures Checksum(block) < Pow8(6)
  {
    assert Pow8(6) == 262144;
  }

  lemma SizeFits(size: nat)
    requires size < SIZE_LIMIT
    ensures size < Pow8(11)
  {
    assert Pow8(11) == SIZE_LIMIT;
  }

  lemma NumbersReadBack(name: Bytes, size: nat)
    requires |name| <= 100 && size < SIZE_LIMIT
    ensures var h := FormatHeader(name, size);
      ParseOctal(h[148..156]) == Some(Checksum(h)) && ParseOctal(h[124..136]) == Some(size)
  {
    var h := FormatHeader(name, size);
    WrittenFields(name, size);
    ChecksumFits(h);
    SizeFits(size);
    ParseOctalField(Checksum(h), 6, ['\0', ' ']);
    ParseOctalField(size, 11, ['\0']);
  }

  lemma NameReadsBack(name: Bytes, size: nat)
    requires 0 < |name| <= 100 && (forall i :: 0 <= i < |name| ==> name[i] != '\0')
    ensures var h := FormatHeader(name, size);
      && UpToNul(h[0..100]) == name && UpToNul(h[345..500]) == []
      && h[156] == '0' && h[257..263] == "ustar\0" && h[263..265] == "00"
  {
    WrittenFields(name, size);
    UpToNulText(name, 100 - |name|);
    UpToNulZeros(155);
  }

  /** Whatever the name and size, the header that is written reads back as them. */
  lemma HeaderRoundTrip(name: Bytes, size: nat)
    requires 0 < |name| <= 100 && (forall i :: 0 <= i < |name| ==> name[i] != '\0')
    requires size < SIZE_LIMIT
    ensures ParseHeader(FormatHeader(name, size)) == Some(Header(name, '0', size))
    ensures !IsZero(FormatHeader(name, size))
  {
    NumbersReadBack(name, size);
    NameReadsBack(name, size);
  }

  // ---- what the standard lays down ----

  lemma {:induction false} SumConcat(a: Bytes, b: Bytes)
    ensures Sum(a + b) == Sum(a) + Sum(b)
  {
    if b == [] {
      assert a + b == a;
    } else {
      var n := |b| - 1;
      SumConcat(a, b[..n]);
      assert (a + b)[..|a| + n] == a + b[..n];
    }
  }

  lemma SumOfBlanks()
    ensures Sum(Repeat(' ', 8)) == 256
  {
    SumConcat(Repeat(' ', 4), Repeat(' ', 4));
    SumConcat(Repeat(' ', 2), Repeat(' ', 2));
    assert Repeat(' ', 4) + Repeat(' ', 4) == Repeat(' ', 8) && Repeat(' ', 2) + Repeat(' ', 2) == Repeat(' ', 4);
    assert Repeat(' ', 2)[..1] == [' '] && [' '][..0] == [];
  }

  /** The checksum is the sum of all bytes of the header with blanks for the checksum itself. */
  lemma ChecksumIsSum(block: Bytes)
    requires |block| == BLOCK
    ensures Checksum(block) == Sum(block[..148] + Repeat(' ', 8) + block[156..])
  {
    SumConcat(block[..148] + Repeat(' ', 8), block[156..]);
    SumConcat(block[..148], Repeat(' ', 8));
    SumOfBlanks();
  }

  lemma NumbersWritten()
    ensures Octal(384, 7) == "0000600" && Octal(0, 7) == "0000000" && Octal(0, 11) == "00000000000"
  {
  }

  lemma FourParts(a: Bytes, b: Bytes, c: Bytes, d: Bytes)
    ensures var t := a + b + c + d;
      t[|a|..|a| + |b|] == b && t[|a| + |b|..|a| + |b| + |c|] == c && t[|a| + |b| + |c|..] == d
  {
  }

  lemma FrontFields(name: Bytes)
    requires |name| <= 100
    ensures var f := HeaderFront(name);
      f[100..108] == "0000600\0" && f[108..116] == "0000000\0" && f[116..124] == "0000000\0"
  {
    NumbersWritten();
    FourParts(Field(name, 100), Octal(384, 7) + ['\0'], Octal(0, 7) + ['\0'], Octal(0, 7) + ['\0']);
  }

  lemma OtherBackFields()
    ensures var b := HeaderBack();
      && IsZero(b[1..101]) && IsZero(b[109..173]) && IsZero(b[344..356])
      && b[173..181] == "0000000\0" && b[181..189] == "0000000\0"
  {
    NumbersWritten();
    var b := HeaderBack();
    assert b[173..181] == Octal(0, 7) + ['\0'] && b[181..189] == Octal(0, 7) + ['\0'];
  }

  /** A slice of a slice. */
  lemma Within(s: Bytes, from: nat, i: nat, j: nat)
    requires i <= j && from + j <= |s|
    ensures s[from + i..from + j] == s[from..][i..j]
  {
  }

  lemma WrittenParts(name: Bytes, size: nat)
    requires |name| <= 100
    ensures var h := FormatHeader(name, size);
      h[..124] == HeaderFront(name) && h[136..148] == Octal(0, 11) + ['\0'] && h[156..] == HeaderBack()
  {
    var sum := Octal(Checksum(HeaderAround(name, size, Repeat(' ', 8))), 6) + ['\0', ' '];
    FiveParts(HeaderFront(name), Octal(size, 11) + ['\0'], Octal(0, 11) + ['\0'], sum, HeaderBack());
  }

  /** The fields that the reader does not look at: mode 0600, no owner, no time, no link, no device. */
  lemma OtherFields(name: Bytes, size: nat)
    requires |name| <= 100
    ensures var h := FormatHeader(name, size);
      && h[100..108] == "0000600\0" && h[108..116] == "0000000\0" && h[116..124] == "0000000\0"
      && h[136..148] == "00000000000\0" && IsZero(h[157..257])
      && IsZero(h[265..329]) && h[329..337] == "0000000\0" && h[337..345] == "0000000\0" && IsZero(h[500..512])
  {
    var h := FormatHeader(name, size);
    WrittenParts(name, size);
    NumbersWritten();
    FrontFields(name);
    assert h[100..108] == h[..124][100..108] && h[108..116] == h[..124][108..116] && h[116..124] == h[..124][116..124];
    OtherBackFields();
    Within(h, 156, 1, 101);
    Within(h, 156, 109, 173);
    Within(h, 156, 173, 181);
    Within(h, 156, 181, 189);
    Within(h, 156, 344, 356);
  }

  lemma SumOfChanged(s: Bytes, i: nat, c: Byte)
    requires i < |s|
    ensures Sum(s[i := c]) == Sum(s) - s[i] as int + c as int
  {
    assert s == s[..i] + [s[i]] + s[i + 1..] && s[i := c] == s[..i] + [c] + s[i + 1..];
    SumConcat(s[..i] + [s[i]], s[i + 1..]);
    SumConcat(s[..i] + [c], s[i + 1..]);
    SumConcat(s[..i], [s[i]]);
    SumConcat(s[..i], [c]);
    assert [c][..0] == [] && [s[i]][..0] == [];
  }

  lemma ChecksumOfChanged(block: Bytes, i: nat, c: Byte)
    requires |block| == BLOCK && i < BLOCK && !(148 <= i < 156)
    ensures Checksum(block[i := c]) == Checksum(block) - block[i] as int + c as int
  {
    var b := block[i := c];
    if i < 148 {
      SumOfChanged(block[..148], i, c);
      assert b[..148] == block[..148][i := c] && b[156..] == block[156..];
    } else {
      SumOfChanged(block[156..], i - 156, c);
      assert b[156..] == block[156..][i - 156 := c] && b[..148] == block[..148];
    }
  }

  lemma WrongSum(block: Bytes)
    requires |block| == BLOCK && ParseOctal(block[148..156]) != Some(Checksum(block))
    ensures ParseHeader(block).None?
  {
  }

  /** A header of which one byte has changed is not read any more. */
  lemma ChangedByteIsSeen(block: Bytes, i: nat, c: Byte)
    requires |block| == BLOCK && ParseHeader(block).Some?
    requires i < BLOCK && !(148 <= i < 156) && c != block[i]
    ensures ParseHeader(block[i := c]).None?
  {
    ChecksumOfChanged(block, i, c);
    assert block[i := c][148..156] == block[148..156];
    if ParseOctal(block[148..156]) != Some(Checksum(block)) {
      WrongSum(block);
    }
    WrongSum(block[i := c]);
  }

  /** Only ustar headers are read. */
  lemma OtherFormatsAreNotRead(block: Bytes)
    requires |block| == BLOCK && block[257..265] != "ustar\0" + "00"
    ensures ParseHeader(block).None?
  {
    assert block[257..265] == block[257..263] + block[263..265];
  }

  lemma FieldText(text: Bytes, w: nat)
    requires |text| <= w && '\0' !in text
    ensures UpToNul(Field(text, w)) == text
  {
    UpToNulText(text, w - |text|);
  }

  /** What a header says when it is read at all. */
  lemma ReadsFields(block: Bytes, h: Header)
    requires |block| == BLOCK && ParseHeader(block) == Some(h)
    ensures var name, prefix := UpToNul(block[0..100]), UpToNul(block[345..500]);
      h.name == if prefix == [] then name else prefix + "/" + name
    ensures block[156] != '\0' ==> h.typeflag == block[156]
    ensures HeaderOnly(h.typeflag) ==> h.size == 0
  {
  }

  /** A prefix stands before the name, with a slash between. */
  lemma PrefixFirst(block: Bytes, h: Header, prefix: Bytes, name: Bytes)
    requires |block| == BLOCK && ParseHeader(block) == Some(h)
    requires |prefix| <= 155 && |name| <= 100 && '\0' !in prefix && '\0' !in name
    requires block[345..500] == Field(prefix, 155) && block[0..100] == Field(name, 100)
    ensures h.name == if prefix == [] then name else prefix + "/" + name
  {
    ReadsFields(block, h);
    FieldText(prefix, 155);
    FieldText(name, 100);
  }

  /** Links, devices, directories and fifos come without contents, whatever their size field says. */
  lemma OnlyFilesHaveContents(block: Bytes, h: Header)
    requires |block| == BLOCK && ParseHeader(block) == Some(h) && '1' <= block[156] <= '6'
    ensures h.typeflag == block[156] && h.size == 0
  {
    ReadsFields(block, h);
    var t := "123456";
    assert t[0] == '1' && t[1] == '2' && t[2] == '3' && t[3] == '4' && t[4] == '5' && t[5] == '6';
  }

  // ---- archives ----

  /** Bytes that fill the last block of `n` bytes of contents. */
  function Padding(n: nat): (r: nat)
    ensures (n + r) % BLOCK == 0 && r < BLOCK
  {
    (BLOCK - n % BLOCK) % BLOCK
  }

  /** A file the writer can put into the format. */
  predicate Fits(f: TarFile) {
    0 < |f.name| <= 100 && (forall i :: 0 <= i < |f.name| ==> f.name[i] != '\0') && |f.data| < SIZE_LIMIT
  }

  predicate AllFit(files: seq<TarFile>) {
    forall i :: 0 <= i < |files| ==> Fits(files[i])
  }

  function Record(f: TarFile): (r: Bytes)
    requires Fits(f)
    ensures |r| == BLOCK + |f.data| + Padding(|f.data|)
  {
    FormatHeader(f.name, |f.data|) + f.data + Zeros(Padding(|f.data|))
  }

  function Records(files: seq<TarFile>): Bytes
    requires AllFit(files)
  {
    if files == [] then [] else Records(files[..|files| - 1]) + Record(files[|files| - 1])
  }

  /** The files and the two zero blocks of the end. */
  function Archive(files: seq<TarFile>): Bytes
    requires AllFit(files)
  {
    Records(files) + Zeros(2 * BLOCK)
  }

  lemma WholeRecord(f: TarFile)
    requires Fits(f)
    ensures |Record(f)| % BLOCK == 0
  {
    AddBlocks(BLOCK, |f.data| + Padding(|f.data|));
  }

  lemma {:induction false} WholeRecords(files: seq<TarFile>)
    requires AllFit(files)
    ensures |Records(files)| % BLOCK == 0
  {
    if files != [] {
      var n := |files| - 1;
      WholeRecords(files[..n]);
      WholeRecord(files[n]);
      AddBlocks(|Records(files[..n])|, |Record(files[n])|);
    }
  }

  lemma WholeBlocks(files: seq<TarFile>)
    requires AllFit(files)
    ensures |Archive(files)| % BLOCK == 0
  {
    WholeRecords(files);
    assert |Archive(files)| == |Records(files)| + 1024;
    AddBlocks(|Records(files)|, 1024);
  }

  lemma AddBlocks(m: nat, n: nat)
    requires m % BLOCK == 0 && n % BLOCK == 0
    ensures (m + n) % BLOCK == 0
  {
    var a, b := m / BLOCK, n / BLOCK;
    assert m + n == BLOCK * (a + b);
    WholeMultiple(a + b);
  }

  lemma WholeMultiple(k: nat)
    ensures BLOCK * k % BLOCK == 0
  {
  }

  /** What the reader makes of the block at `pos`. */
  function NextEntry(data: Bytes, pos: nat): Next {
    if pos >= |data| then End
    else if pos + BLOCK > |data| then Malformed
    else if IsZero(data[pos..pos + BLOCK]) then
      if pos + BLOCK == |data| then End
      else if pos + 2 * BLOCK > |data| then Malformed
      else if IsZero(data[pos + BLOCK..pos + 2 * BLOCK]) then End
      else Malformed
    else
      match ParseHeader(data[pos..pos + BLOCK])
      case None => Malformed
      case Some(h) => Item(h, pos + BLOCK)
  }

  /** Where the entry after an item begins. */
  function Skip(item: Next): (r: nat)
    requires item.Item?
    ensures r >= item.start
  {
    item.start + item.header.size + Padding(item.header.size)
  }

  function HeaderOf(f: TarFile): Header {
    Header(f.name, '0', |f.data|)
  }

  /** The entry at `pos` is the file, contents and all, and the entry after it is at `next`. */
  ghost predicate ReadsAt(data: Bytes, pos: nat, f: TarFile, next: nat) {
    var start := pos + BLOCK;
    && NextEntry(data, pos) == Item(HeaderOf(f), start)
    && start + |f.data| <= |data| && data[start..start + |f.data|] == f.data
    && Skip(Item(HeaderOf(f), start)) == next
  }

  /** The reader takes a record apart and comes out behind it, whatever stands around it. */
  lemma ReadsRecord(pre: Bytes, f: TarFile, post: Bytes)
    requires Fits(f)
    ensures ReadsAt(pre + Record(f) + post, |pre|, f, |pre + Record(f)|)
  {
    var h, zeros := FormatHeader(f.name, |f.data|), Zeros(Padding(|f.data|));
    var record := h + f.data + zeros;
    assert Record(f) == record;
    Layers(pre, h, f.data, zeros, post);
    HeaderRoundTrip(f.name, |f.data|);
    HeaderAt(pre + record + post, |pre|, h, HeaderOf(f));
  }

  /** Where header and contents lie in the middle of a text. */
  lemma Layers(pre: Bytes, h: Bytes, data: Bytes, zeros: Bytes, post: Bytes)
    requires |h| == BLOCK
    ensures var t, start := pre + (h + data + zeros) + post, |pre| + BLOCK;
      && start + |data| <= |t| && t[|pre|..start] == h && t[start..start + |data|] == data
      && |pre + (h + data + zeros)| == start + |data| + |zeros|
  {
  }

  /** A block that parses is an item. */
  lemma HeaderAt(data: Bytes, pos: nat, h: Bytes, header: Header)
    requires |h| == BLOCK && pos + BLOCK <= |data| && data[pos..pos + BLOCK] == h
    requires !IsZero(h) && ParseHeader(h) == Some(header)
    ensures NextEntry(data, pos) == Item(header, pos + BLOCK)
  {
  }

  lemma EndAt(data: Bytes, pos: nat)
    requires pos + 2 * BLOCK <= |data|
    requires IsZero(data[pos..pos + BLOCK]) && IsZero(data[pos + BLOCK..pos + 2 * BLOCK])
    ensures NextEntry(data, pos) == End
  {
  }

  lemma ZerosInside(pre: Bytes, post: Bytes)
    ensures var data := pre + Zeros(2 * BLOCK) + post;
      && |pre| + 2 * BLOCK <= |data|
      && IsZero(data[|pre|..|pre| + BLOCK]) && IsZero(data[|pre| + BLOCK..|pre| + 2 * BLOCK])
  {
    var data := pre + Zeros(2 * BLOCK) + post;
    assert forall i :: |pre| <= i < |pre| + 2 * BLOCK ==> data[i] == '\0';
  }

  lemma ZeroBlocks(data: Bytes, pos: nat, k: nat)
    requires pos + k <= |data|
    ensures IsZero(data[pos..pos + k]) <==> Zeros(k) <= data[pos..]
  {
    assert data[pos..][..k] == data[pos..pos + k];
    if IsZero(data[pos..pos + k]) {
      assert data[pos..pos + k] == Zeros(k);
    }
    if Zeros(k) <= data[pos..] {
      assert data[pos..pos + k] == Zeros(k);
    }
  }

  lemma TwoBlocks(data: Bytes, pos: nat)
    requires pos + 2 * BLOCK <= |data|
    ensures IsZero(data[pos..pos + 2 * BLOCK]) <==>
      IsZero(data[pos..pos + BLOCK]) && IsZero(data[pos + BLOCK..pos + 2 * BLOCK])
  {
    var t := data[pos..pos + 2 * BLOCK];
    assert t[..BLOCK] == data[pos..pos + BLOCK] && t[BLOCK..] == data[pos + BLOCK..pos + 2 * BLOCK];
    assert t == t[..BLOCK] + t[BLOCK..];
  }

  /**
    An archive ends where the data does, at a zero block that is the last one,
    or at two zero blocks; less than a block of anything, and a zero block with
    something else behind it, are errors.
   */
  lemma WhereArchivesEnd(data: Bytes, pos: nat)
    requires pos <= |data|
    ensures var rest := data[pos..];
      && (NextEntry(data, pos) == End <==> rest == [] || rest == Zeros(512) || Zeros(1024) <= rest)
      && (0 < |rest| < 512 ==> NextEntry(data, pos) == Malformed)
      && (Zeros(512) <= rest && rest != Zeros(512) && !(Zeros(1024) <= rest) ==> NextEntry(data, pos) == Malformed)
  {
    if pos + BLOCK <= |data| {
      ZeroBlocks(data, pos, BLOCK);
      assert pos + BLOCK == |data| ==> data[pos..] == data[pos..pos + BLOCK];
    }
    if pos + 2 * BLOCK <= |data| {
      ZeroBlocks(data, pos, 2 * BLOCK);
      TwoBlocks(data, pos);
    }
  }

  /** Two zero blocks end the archive, whatever follows them. */
  lemma ReadsEnd(pre: Bytes, post: Bytes)
    ensures NextEntry(pre + Zeros(2 * BLOCK) + post, |pre|) == End
  {
    ZerosInside(pre, post);
    EndAt(pre + Zeros(2 * BLOCK) + post, |pre|);
  }
}
