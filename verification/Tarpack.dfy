/** The submission archive: generated member names, meta.json first, padding to 64 KiB. */
module Tarpack {
  import opened Common
  import opened Ustar

  datatype Attachment = Attachment(originalName: Bytes, mime: Bytes, data: Bytes)

  datatype MetaFile = MetaFile(index: nat, originalName: Bytes, mime: Bytes, size: nat)

  datatype Meta = Meta(version: nat, code: string, fields: map<string, string>, files: seq<MetaFile>, receivedAt: int)

  /** `receivedAt` is in seconds. */
  datatype Submission = Submission(code: string, fields: map<string, string>, attachments: seq<Attachment>, receivedAt: int)

  const META_NAME: Bytes := "meta.json"
  const DIR_PREFIX: Bytes := "attachments/"
  const PAD_BLOCK := 65536

  // ---- names ----

  predicate IsSafeChar(c: Byte) {
    'a' <= c <= 'z' || 'A' <= c <= 'Z' || '0' <= c <= '9' || c == '_' || c == '-'
  }

  /** In ASCII: the letters, the digits, "-" and "_". */
  lemma SafeBytes(c: Byte)
    ensures var u := c as int;
      IsSafeChar(c) <==> 0x61 <= u <= 0x7A || 0x41 <= u <= 0x5A || 0x30 <= u <= 0x39 || u == 0x2D || u == 0x5F
  {
  }

  /** Where the name stops being read: at the first dot that is not among its last four bytes. */
  function CutAt(orig: Bytes, i: nat): (r: nat)
    requires i <= |orig|
    ensures i <= r <= |orig|
    ensures forall j :: i <= j < r ==> !(orig[j] == '.' && j < |orig| - 4)
    ensures r < |orig| ==> orig[r] == '.' && r < |orig| - 4
    decreases |orig| - i
  {
    if i == |orig| || (orig[i] == '.' && i < |orig| - 4) then i else CutAt(orig, i + 1)
  }

  function Filter(s: Bytes): (r: Bytes)
    ensures forall i :: 0 <= i < |r| ==> IsSafeChar(r[i])
  {
    if s == [] then []
    else Filter(s[..|s| - 1]) + (if IsSafeChar(s[|s| - 1]) then [s[|s| - 1]] else [])
  }

  function ExtForMIME(mime: Bytes): Bytes {
    match mime
    case "image/jpeg" => ".jpg"
    case "image/png" => ".png"
    case "image/gif" => ".gif"
    case "image/webp" => ".webp"
    case "text/plain" => ".txt"
    case _ => ".bin"
  }

  /** What is left of the safe bytes `kept` as a stem. */
  function Stem(kept: Bytes): Bytes {
    if kept == [] then "file" else if |kept| > 60 then kept[..60] else kept
  }

  /** The stem of the safe characters before the cut, and the extension of the type. */
  function SafeName(orig: Bytes, mime: Bytes): (r: Bytes)
    ensures 1 <= |r| <= 65
  {
    Stem(Filter(orig[..CutAt(orig, 0)])) + ExtForMIME(mime)
  }

  method SafeFilename(orig: Bytes, mime: Bytes) returns (r: Bytes)
    ensures r == SafeName(orig, mime)
  {
    var clean: Bytes := [];
    var i := 0;
    while i < |orig|
      invariant 0 <= i <= CutAt(orig, 0)
      invariant clean == Filter(orig[..i])
    {
      var c := orig[i];
      CutSame(orig, 0, i);
      assert orig[..i + 1][..i] == orig[..i];
      if IsSafeChar(c) {
        clean := clean + [c];
      } else if c == '.' && i < |orig| - 4 {
        break;
      }
      i := i + 1;
    }
    CutSame(orig, 0, i);
    if |clean| == 0 {
      clean := "file";
    }
    if |clean| > 60 {
      clean := clean[..60];
    }
    r := clean + ExtForMIME(mime);
  }

  lemma CutSame(orig: Bytes, i: nat, j: nat)
    requires i <= |orig| && i <= j <= CutAt(orig, i)
    ensures CutAt(orig, j) == CutAt(orig, i)
    decreases j - i
  {
    if i < j {
      CutSame(orig, i + 1, j);
    }
  }

  function Decimal(n: nat): (r: Bytes)
    ensures r != [] && forall i :: 0 <= i < |r| ==> '0' <= r[i] <= '9'
  {
    (if n < 10 then [] else Decimal(n / 10)) + [('0' as int + n % 10) as char]
  }

  /** With zeros in front, up to three digits. */
  function Pad3(d: Bytes): (r: Bytes)
    requires forall i :: 0 <= i < |d| ==> '0' <= d[i] <= '9'
    ensures forall i :: 0 <= i < |r| ==> '0' <= r[i] <= '9'
    ensures |r| == if |d| < 3 then 3 else |d|
    decreases 3 - |d|
  {
    if |d| < 3 then Pad3(['0'] + d) else d
  }

  /** `%03d` */
  function Decimal3(n: nat): (r: Bytes)
    ensures forall i :: 0 <= i < |r| ==> '0' <= r[i] <= '9'
  {
    Pad3(Decimal(n))
  }

  function DecimalValue(s: Bytes): int {
    if s == [] then 0 else DecimalValue(s[..|s| - 1]) * 10 + (s[|s| - 1] as int - '0' as int)
  }

  lemma {:induction false} DecimalRoundTrip(n: nat)
    ensures DecimalValue(Decimal(n)) == n
  {
    var d := Decimal(n);
    if n < 10 {
      assert d[..|d| - 1] == [];
    } else {
      DecimalRoundTrip(n / 10);
      assert d[..|d| - 1] == Decimal(n / 10);
    }
  }

  lemma {:induction false} LeadingZero(s: Bytes)
    ensures DecimalValue(['0'] + s) == DecimalValue(s)
  {
    var z: Bytes := ['0'] + s;
    if s == [] {
      assert z[..0] == [];
    } else {
      LeadingZero(s[..|s| - 1]);
      assert z[..|z| - 1] == ['0'] + s[..|s| - 1];
    }
  }

  lemma {:induction false} Pad3Value(d: Bytes)
    requires forall i :: 0 <= i < |d| ==> '0' <= d[i] <= '9'
    ensures DecimalValue(Pad3(d)) == DecimalValue(d)
    decreases 3 - |d|
  {
    if |d| < 3 {
      LeadingZero(d);
      Pad3Value(['0'] + d);
    }
  }

  /** The name inside attachments/ of the attachment with this one-based index. */
  function BaseName(index: nat, a: Attachment): Bytes {
    Decimal3(index) + "-" + SafeName(a.originalName, a.mime)
  }

  /** Its name in the archive. */
  function MemberName(index: nat, a: Attachment): Bytes {
    DIR_PREFIX + BaseName(index, a)
  }

  predicate IsNumber(s: Bytes) {
    forall i :: 0 <= i < |s| ==> '0' <= s[i] <= '9'
  }

  lemma NumberBeforeDash(p: Bytes, x: Bytes, q: Bytes, y: Bytes)
    requires IsNumber(p) && IsNumber(q) && p + "-" + x == q + "-" + y
    ensures p == q
  {
    var s := p + "-" + x;
    assert s[|p|] == '-' && s[|q|] == '-';
    assert forall k :: 0 <= k < |p| ==> s[k] == p[k];
    assert forall k :: 0 <= k < |q| ==> s[k] == q[k];
    assert p == s[..|p|] && q == s[..|q|];
  }

  lemma Decimal3RoundTrip(n: nat)
    ensures DecimalValue(Decimal3(n)) == n
  {
    DecimalRoundTrip(n);
    Pad3Value(Decimal(n));
  }

  lemma Decimal3Injective(i: nat, j: nat)
    requires Decimal3(i) == Decimal3(j)
    ensures i == j
  {
    Decimal3RoundTrip(i);
    Decimal3RoundTrip(j);
  }

  /** Different indices give different names, whatever the attachments are called. */
  lemma BaseNamesDistinct(i: nat, a: Attachment, j: nat, b: Attachment)
    requires i != j
    ensures BaseName(i, a) != BaseName(j, b)
  {
    if BaseName(i, a) == BaseName(j, b) {
      NumberBeforeDash(Decimal3(i), SafeName(a.originalName, a.mime), Decimal3(j), SafeName(b.originalName, b.mime));
      Decimal3Injective(i, j);
    }
  }

  /** An index of up to nineteen digits; no slice is longer than that. */
  predicate ShortIndex(n: nat) {
    |Decimal(n)| <= 19
  }

  lemma {:induction false} DecimalGrows(m: nat, n: nat)
    requires m <= n
    ensures |Decimal(m)| <= |Decimal(n)|
  {
    if m >= 10 {
      DecimalGrows(m / 10, n / 10);
    }
  }

  predicate IsMemberChar(c: Byte) {
    IsSafeChar(c) || c == '.'
  }

  /**
    A generated name is up to 85 letters, digits, "_", "-" and ".", the first
    one a digit; with its directory it fits the hundred bytes of a ustar name
    field for every index of up to nineteen digits.
   */
  lemma BaseNameShape(index: nat, a: Attachment)
    requires ShortIndex(index)
    ensures var n := BaseName(index, a);
      && 0 < |n| <= 85 && '0' <= n[0] <= '9' && (forall i :: 0 <= i < |n| ==> IsMemberChar(n[i]))
      && |MemberName(index, a)| <= 97
  {
    var tail := SafeName(a.originalName, a.mime);
    assert BaseName(index, a)[0] == Decimal3(index)[0];
    assert forall i :: 0 <= i < |tail| ==> IsMemberChar(tail[i]);
  }

  /** The name is cut at its first dot exactly when that dot is not among the last four bytes. */
  lemma CutIffEarlyDot(orig: Bytes)
    ensures CutAt(orig, 0) < |orig| <==> exists i :: 0 <= i < |orig| - 4 && orig[i] == '.'
  {
  }

  lemma {:induction false} FilterKeeps(s: Bytes)
    requires forall i :: 0 <= i < |s| ==> IsSafeChar(s[i])
    ensures Filter(s) == s
  {
    if s != [] {
      var n := |s| - 1;
      FilterKeeps(s[..n]);
      assert s == s[..n] + [s[n]];
    }
  }

  lemma {:induction false} FilterConcat(s: Bytes, t: Bytes)
    ensures Filter(s + t) == Filter(s) + Filter(t)
  {
    if t == [] {
      assert s + t == s;
    } else {
      var n := |t| - 1;
      FilterConcat(s, t[..n]);
      assert (s + t)[..|s| + n] == s + t[..n];
    }
  }

  lemma NothingBetween(s: Bytes, m: Bytes, t: Bytes)
    requires m == []
    ensures s + m + t == s + t
  {
  }

  lemma FilterMiddle(a: Bytes, b: Bytes, c: Bytes)
    requires Filter(b) == []
    ensures Filter(a + b + c) == Filter(a) + Filter(c)
  {
    FilterConcat(a + b, c);
    FilterConcat(a, b);
    NothingBetween(Filter(a), Filter(b), Filter(c));
  }

  lemma FilterDropsDot(stem: Bytes, ext: Bytes)
    requires forall i :: 0 <= i < |stem| ==> IsSafeChar(stem[i])
    requires forall i :: 0 <= i < |ext| ==> IsSafeChar(ext[i])
    ensures Filter(stem + ['.'] + ext) == stem + ext
  {
    UnsafeIsDropped('.');
    FilterMiddle(stem, ['.'], ext);
    FilterKeeps(stem);
    FilterKeeps(ext);
  }

  /** `front` is all of the name, or what stands before its first dot that has four bytes or more behind it. */
  ghost predicate IsFront(orig: Bytes, front: Bytes) {
    && front <= orig
    && (forall j :: 0 <= j < |front| && front[j] == '.' ==> |orig| - 1 - j < 4)
    && (front == orig || (orig[|front|] == '.' && |orig| - 1 - |front| >= 4))
  }

  /** The name is made of the safe bytes of that front, and of nothing that comes after it. */
  lemma NameFromFront(orig: Bytes, front: Bytes, mime: Bytes)
    requires IsFront(orig, front)
    ensures SafeName(orig, mime) == Stem(Filter(front)) + ExtForMIME(mime)
  {
    assert forall j :: 0 <= j < |front| ==> orig[j] == front[j];
    assert CutAt(orig, 0) == |front|;
    assert orig[..|front|] == front;
  }

  lemma UnsafeIsDropped(c: Byte)
    requires !IsSafeChar(c)
    ensures Filter([c]) == []
  {
    assert [c][..0] == [];
  }

  /** Each type has its own extension, and what is not known is ".bin". */
  lemma ExtensionOfType()
    ensures ExtForMIME("image/jpeg") == ".jpg" && ExtForMIME("image/png") == ".png" && ExtForMIME("image/gif") == ".gif"
    ensures ExtForMIME("image/webp") == ".webp" && ExtForMIME("text/plain") == ".txt"
    ensures forall m: Bytes :: m !in ["image/jpeg", "image/png", "image/gif", "image/webp", "text/plain"] ==>
      ExtForMIME(m) == ".bin"
  {
  }

  /** A front of safe bytes stays as it is, up to sixty; one without any becomes "file". */
  lemma SafeFrontStays(orig: Bytes, front: Bytes, mime: Bytes)
    requires IsFront(orig, front) && forall i :: 0 <= i < |front| ==> IsSafeChar(front[i])
    ensures 0 < |front| <= 60 ==> SafeName(orig, mime) == front + ExtForMIME(mime)
    ensures |front| > 60 ==> SafeName(orig, mime) == front[..60] + ExtForMIME(mime)
    ensures front == [] ==> SafeName(orig, mime) == "file" + ExtForMIME(mime)
  {
    NameFromFront(orig, front, mime);
    FilterKeeps(front);
  }

  /** So an ordinary extension is not dropped: its letters stay and only its dot goes. */
  lemma ExtensionLettersStay(stem: Bytes, ext: Bytes, mime: Bytes)
    requires |stem| > 0 && |ext| <= 3 && |stem| + |ext| <= 60
    requires forall i :: 0 <= i < |stem| ==> IsSafeChar(stem[i])
    requires forall i :: 0 <= i < |ext| ==> IsSafeChar(ext[i])
    ensures SafeName(stem + ['.'] + ext, mime) == stem + ext + ExtForMIME(mime)
  {
    var orig := stem + ['.'] + ext;
    assert forall i :: 0 <= i < |orig| - 4 ==> orig[i] == stem[i];
    assert orig[..CutAt(orig, 0)] == orig;
    FilterDropsDot(stem, ext);
  }

  // ---- the archive ----

  /** The members after meta.json, one per attachment, numbered from one. */
  function Members(atts: seq<Attachment>): (r: seq<TarFile>)
    ensures |r| == |atts|
    ensures forall i :: 0 <= i < |atts| ==> r[i] == TarFile(MemberName(i + 1, atts[i]), atts[i].data)
  {
    if atts == [] then []
    else
      var n := |atts| - 1;
      Members(atts[..n]) + [TarFile(MemberName(n + 1, atts[n]), atts[n].data)]
  }

  /** The description carries the index, the name as uploaded, the type, and the length of the data. */
  predicate Describes(f: MetaFile, index: nat, a: Attachment) {
    f.index == index && f.originalName == a.originalName && f.mime == a.mime && f.size == |a.data|
  }

  /** Their descriptions in the metadata. */
  function MetaFiles(atts: seq<Attachment>): (r: seq<MetaFile>)
    ensures |r| == |atts|
    ensures forall i :: 0 <= i < |atts| ==> Describes(r[i], i + 1, atts[i])
  {
    if atts == [] then []
    else
      var n := |atts| - 1;
      MetaFiles(atts[..n]) + [MetaFile(n + 1, atts[n].originalName, atts[n].mime, |atts[n].data|)]
  }

  function MetaOf(s: Submission): Meta {
    Meta(1, s.code, s.fields, MetaFiles(s.attachments), s.receivedAt - s.receivedAt % 3600)
  }

  /** The metadata of a submission: its code, its fields, the hour it came in, and every attachment in turn. */
  ghost predicate IsMetaOf(m: Meta, s: Submission) {
    && m.version == 1 && m.code == s.code && m.fields == s.fields && IsHourOf(m.receivedAt, s.receivedAt)
    && |m.files| == |s.attachments|
    && forall i :: 0 <= i < |m.files| ==> Describes(m.files[i], i + 1, s.attachments[i])
  }

  lemma MetaOfIs(m: Meta, s: Submission)
    ensures IsMetaOf(m, s) <==> m == MetaOf(s)
  {
    assert s.receivedAt - s.receivedAt % 3600 == 3600 * (s.receivedAt / 3600);
    if IsMetaOf(m, s) {
      assert m.files == MetaFiles(s.attachments);
    }
  }

  function FilesOf(s: Submission, json: Bytes): (r: seq<TarFile>)
    ensures |r| == |s.attachments| + 1 && r[0] == TarFile(META_NAME, json)
    ensures forall i :: 0 <= i < |s.attachments| ==> r[i + 1] == Members(s.attachments)[i]
  {
    [TarFile(META_NAME, json)] + Members(s.attachments)
  }

  /** Every file is below the eight gibibytes an octal size field can hold. */
  predicate Packable(s: Submission, json: Bytes) {
    && ShortIndex(|s.attachments|)
    && |json| < SIZE_LIMIT
    && forall i :: 0 <= i < |s.attachments| ==> |s.attachments[i].data| < SIZE_LIMIT
  }

  lemma MemberFits(index: nat, a: Attachment)
    requires ShortIndex(index) && |a.data| < SIZE_LIMIT
    ensures Fits(TarFile(MemberName(index, a), a.data))
  {
    BaseNameShape(index, a);
  }

  lemma MembersFit(atts: seq<Attachment>, i: nat)
    requires ShortIndex(|atts|) && i < |atts| && |atts[i].data| < SIZE_LIMIT
    ensures Fits(Members(atts)[i])
  {
    DecimalGrows(i + 1, |atts|);
    MemberFits(i + 1, atts[i]);
  }

  lemma MetaFits(json: Bytes)
    requires |json| < SIZE_LIMIT
    ensures Fits(TarFile(META_NAME, json))
  {
    var n := META_NAME;
    assert n[0] == 'm' && n[1] == 'e' && n[2] == 't' && n[3] == 'a' && n[4] == '.';
    assert n[5] == 'j' && n[6] == 's' && n[7] == 'o' && n[8] == 'n';
  }

  lemma FilesFit(s: Submission, json: Bytes)
    requires Packable(s, json)
    ensures AllFit(FilesOf(s, json))
  {
    MetaFits(json);
    forall i | 0 <= i < |s.attachments| ensures Fits(Members(s.attachments)[i]) {
      MembersFit(s.attachments, i);
    }
    OneThenFit(TarFile(META_NAME, json), Members(s.attachments));
  }

  lemma OneThenFit(f: TarFile, rest: seq<TarFile>)
    requires Fits(f) && AllFit(rest)
    ensures AllFit([f] + rest)
  {
  }

  /** The members and their descriptions, in the order of the upload. */
  method ListMembers(atts: seq<Attachment>) returns (metas: seq<MetaFile>, members: seq<TarFile>)
    ensures metas == MetaFiles(atts) && members == Members(atts)
  {
    metas, members := [], [];
    for i := 0 to |atts|
      invariant metas == MetaFiles(atts[..i])
      invariant members == Members(atts[..i])
    {
      assert atts[..i + 1][..i] == atts[..i];
      var a := atts[i];
      var idx := i + 1;
      var name := SafeFilename(a.originalName, a.mime);
      metas := metas + [MetaFile(idx, a.originalName, a.mime, |a.data|)];
      members := members + [TarFile(DIR_PREFIX + (Decimal3(idx) + "-" + name), a.data)];
    }
    assert atts[..|atts|] == atts;
  }

  lemma RecordsSnoc(files: seq<TarFile>, i: nat)
    requires AllFit(files) && i < |files|
    ensures Records(files[..i + 1]) == Records(files[..i]) + Record(files[i])
  {
    assert files[..i + 1][..i] == files[..i];
  }

  /**
    What the tar writer produces: ustar records as long as every member fits
    one, and otherwise an archive in a richer format, about which nothing is
    said here but that it depends on the members alone.
   */
  function TarOf(files: seq<TarFile>, richer: seq<TarFile> -> Bytes): Bytes {
    if AllFit(files) then Archive(files) else richer(files)
  }

  method WriteTar(files: seq<TarFile>, richer: seq<TarFile> -> Bytes) returns (buf: Bytes)
    ensures buf == TarOf(files, richer)
    ensures AllFit(files) ==> |buf| % BLOCK == 0
  {
    if !AllFit(files) {
      return richer(files);
    }
    WholeBlocks(files);
    buf := [];
    for i := 0 to |files|
      invariant buf == Records(files[..i])
    {
      RecordsSnoc(files, i);
      buf := buf + Record(files[i]);
    }
    assert files[..|files|] == files;
    buf := buf + Zeros(2 * BLOCK);
  }

  /** Every byte of the padding is its length modulo 256. */
  function PadByte(pad: nat): Byte {
    (pad % 256) as char
  }

  lemma RemainderInBlocks(n: nat)
    requires n % BLOCK == 0
    ensures n % PAD_BLOCK % BLOCK == 0
  {
    var k, q := n / BLOCK, n / PAD_BLOCK;
    assert n == BLOCK * k && n == PAD_BLOCK * q + n % PAD_BLOCK;
    assert n % PAD_BLOCK == BLOCK * (k - 128 * q);
  }

  lemma EvenBlocks(k: nat)
    ensures 512 * k % 256 == 0
  {
    assert 512 * k == 256 * (2 * k);
  }

  lemma BlocksPadWithZeros(pad: nat)
    requires pad % BLOCK == 0 && pad > 0
    ensures PadByte(pad) == '\0' && pad >= 512
  {
    var k := pad / BLOCK;
    assert pad == BLOCK * k;
    EvenBlocks(k);
  }

  /** Up to a multiple of 64 KiB; a whole number of tar blocks gets at least one more, and only zeros. */
  method PadTo64K(buf: Bytes) returns (r: Bytes, pad: nat)
    ensures r == buf + Repeat(PadByte(pad), pad) && |r| % PAD_BLOCK == 0 && 0 < pad <= PAD_BLOCK
    ensures |buf| % BLOCK == 0 ==> r == buf + Zeros(pad) && pad >= 512
  {
    var rem := PAD_BLOCK - |buf| % PAD_BLOCK;
    var padding := new Byte[rem](_ => '\0');
    for i := 0 to rem
      invariant forall k :: 0 <= k < i ==> padding[k] == PadByte(rem)
    {
      padding[i] := (rem % 256) as char;
    }
    r, pad := buf + padding[..], rem;
    assert padding[..] == Repeat(PadByte(rem), rem);
    if |buf| % BLOCK == 0 {
      RemainderInBlocks(|buf|);
      BlocksPadWithZeros(rem);
      assert Repeat(PadByte(rem), rem) == Zeros(rem);
    }
  }

  /** meta.json and the members, written and padded. */
  method PackFiles(s: Submission, json: Bytes, members: seq<TarFile>, richer: seq<TarFile> -> Bytes)
    returns (out: Bytes, ghost pad: nat)
    requires members == Members(s.attachments)
    ensures out != [] && |out| % PAD_BLOCK == 0
    ensures Packable(s, json) ==> IsPacked(out, FilesOf(s, json), pad)
  {
    if Packable(s, json) {
      FilesFit(s, json);
    }
    out, pad := WritePadded([TarFile(META_NAME, json)] + members, richer);
  }

  /**
    An error exactly when the metadata cannot be marshalled; otherwise a
    positive multiple of 64 KiB, and for members that fit ustar headers their
    archive with 512 to 65536 zero bytes behind it.
   */
  method PackSubmission(s: Submission, marshal: Meta -> Option<Bytes>, richer: seq<TarFile> -> Bytes)
    returns (r: Option<Bytes>, ghost pad: nat)
    ensures IsMetaOf(MetaOf(s), s)
    ensures r.None? <==> marshal(MetaOf(s)).None?
    ensures r.Some? ==> r.value != [] && |r.value| % 65536 == 0
    ensures r.Some? && Packable(s, marshal(MetaOf(s)).value) ==>
      IsPacked(r.value, FilesOf(s, marshal(MetaOf(s)).value), pad)
  {
    r, pad := None, 0;
    MetaOfIs(MetaOf(s), s);
    var metas, members := ListMembers(s.attachments);
    var json := marshal(Meta(1, s.code, s.fields, metas, s.receivedAt - s.receivedAt % 3600));
    if json.Some? {
      var out;
      out, pad := PackFiles(s, json.value, members, richer);
      r := Some(out);
    }
  }

  method WritePadded(files: seq<TarFile>, richer: seq<TarFile> -> Bytes) returns (out: Bytes, pad: nat)
    ensures out != [] && |out| % PAD_BLOCK == 0
    ensures AllFit(files) ==> IsPacked(out, files, pad)
  {
    var buf := WriteTar(files, richer);
    out, pad := PadTo64K(buf);
  }

  ghost predicate IsPacked(data: Bytes, files: seq<TarFile>, pad: nat) {
    && AllFit(files)
    && data == Archive(files) + Zeros(pad)
    && 512 <= pad <= 65536 && |data| % 65536 == 0
  }
}
