/** From the submission on the server to the files on the air-gapped machine. */
module Pipeline {
  import opened Common
  import opened FileSystem
  import opened PathNames
  import opened Ustar
  import opened Tarpack
  import opened Viewer
  import Crypto

  /** X25519 age to the receiver: what is sealed opens with the receiver's key. */
  ghost predicate Age(seal: Bytes -> Bytes, open: Bytes -> Option<Bytes>) {
    forall b {:trigger seal(b)} :: open(seal(b)) == Some(b)
  }

  method EncryptToReceiver(plaintext: Bytes, seal: Bytes -> Bytes) returns (blob: Bytes)
    ensures blob == Crypto.Wrapped(Crypto.VERSION, seal(plaintext))
  {
    blob := Crypto.WrapEnvelope(Crypto.VERSION, seal(plaintext));
  }

  datatype Outcome = Done | BadEnvelope | WrongVersion | Undecryptable | NoOutputDir | Unpacked(failure: Failure)

  /** kakekomi-viewer decrypt: envelope, version, age, output directory, tar. */
  method Decrypt(disk: Disk, blob: Bytes, open: Bytes -> Option<Bytes>, base: seq<Name>,
                 ghost tar: seq<TarFile>, ghost tail: Bytes)
    returns (r: Outcome)
    requires disk.Valid() && AllPlain(base)
    modifies disk
    ensures disk.Valid()
    ensures r == BadEnvelope <==> Crypto.UnwrapEnvelope(blob).Bad?
    ensures forall version, payload :: Crypto.UnwrapEnvelope(blob) == Crypto.Envelope(version, payload) ==>
      && (r == WrongVersion <==> version != 1)
      && (r == Undecryptable <==> version == 1 && open(payload).None?)
    ensures r in {BadEnvelope, WrongVersion, Undecryptable} ==>
      disk.files == old(disk.files) && disk.dirs == old(disk.dirs)
    ensures disk.FaultFree() && NoPathAt(old(disk.files), old(disk.dirs), base) && IsEnvelopeOf(blob, open, tar, tail) ==>
      && r == Done
      && disk.files == old(disk.files) + Placed(base, tar, |tar|)
      && disk.dirs == DirsAfter(base, old(disk.dirs) + Prefixes(base), |tar|)
  {
    match Crypto.UnwrapEnvelope(blob) {
      case Bad =>
        return BadEnvelope;
      case Envelope(version, payload) =>
        if version != 1 {
          return WrongVersion;
        }
        var data := open(payload);
        if data.None? {
          return Undecryptable;
        }
        var e := disk.MkdirAll(base);
        if !e.Ok? {
          return NoOutputDir;
        }
        PrefixesClosed(base);
        var failure := ExtractTar(disk, data.value, base, tar, tail);
        r := if failure.None? then Done else Unpacked(failure.value);
    }
  }

  /** Nothing at or below the output directory yet, and no file in the way of making it. */
  ghost predicate NoPathAt(files: map<Path, Bytes>, dirs: set<Path>, base: seq<Name>) {
    base != [] && Gone(files, dirs, base) && Prefixes(base) !! files.Keys
  }

  ghost predicate IsEnvelopeOf(blob: Bytes, open: Bytes -> Option<Bytes>, tar: seq<TarFile>, tail: Bytes) {
    match Crypto.UnwrapEnvelope(blob)
    case Bad => false
    case Envelope(version, payload) =>
      version == 1 && open(payload).Some? && IsArchive(open(payload).value, tar, tail)
  }

  // ---- the generated names are ones the viewer accepts ----

  /** A single path element the viewer has nothing to say against. */
  predicate Harmless(n: Name) {
    IsPlain(n) && forall i :: 0 <= i < |n| ==> HarmlessChar(n[i])
  }

  predicate HarmlessChar(c: char) {
    !IsControl(c) && c != '\\' && c != ':' && c != '/'
  }

  lemma MetaHarmless()
    ensures Harmless(META)
  {
    var m := META;
    assert m[0] == 'm' && m[1] == 'e' && m[2] == 't' && m[3] == 'a' && m[4] == '.';
    assert m[5] == 'j' && m[6] == 's' && m[7] == 'o' && m[8] == 'n';
    Letters(m);
  }

  lemma AttachmentsHarmless()
    ensures Harmless(ATTACHMENTS)
  {
    var a := ATTACHMENTS;
    assert a[0] == 'a' && a[1] == 't' && a[2] == 't' && a[3] == 'a' && a[4] == 'c' && a[5] == 'h';
    assert a[6] == 'm' && a[7] == 'e' && a[8] == 'n' && a[9] == 't' && a[10] == 's';
    Letters(a);
  }

  /** Enough letters and dots make a harmless name. */
  lemma Letters(n: Name)
    requires |n| > 2 && forall i :: 0 <= i < |n| ==> 'a' <= n[i] <= 'z' || n[i] == '.'
    ensures Harmless(n)
  {
  }

  lemma NoBackslash(s: string)
    requires '\\' !in s
    ensures ForwardSlashes(s) == s
  {
  }

  lemma OneElement(n: Name)
    requires Harmless(n)
    ensures SafeTarName(n) && Own(n) == [n]
  {
    SplitOne(n);
    NoBackslash(n);
    ElementsOfPlain([n]);
    assert n[0] in n;
  }

  lemma TwoElements(d: Name, n: Name)
    requires Harmless(d) && Harmless(n)
    ensures SafeTarName(d + "/" + n) && Own(d + "/" + n) == [d, n]
  {
    var s := d + "/" + n;
    SplitOne(d);
    SplitOne(n);
    SplitConcat(d, n);
    assert [d] + [n] == [d, n];
    NoBackslash(s);
    ElementsOfPlain([d, n]);
    assert s[0] == d[0] && d[0] in d;
    assert |s| >= 2 && s[1] != ':';
  }

  lemma BaseNameHarmless(index: nat, a: Attachment)
    requires ShortIndex(index)
    ensures Harmless(BaseName(index, a))
  {
    BaseNameShape(index, a);
  }

  lemma MemberIsSafe(index: nat, a: Attachment)
    requires ShortIndex(index)
    ensures SafeTarName(MemberName(index, a)) && Own(MemberName(index, a)) == [ATTACHMENTS, BaseName(index, a)]
  {
    BaseNameHarmless(index, a);
    AttachmentsHarmless();
    TwoElements(ATTACHMENTS, BaseName(index, a));
    DirPrefix();
  }

  lemma DirPrefix()
    ensures DIR_PREFIX == ATTACHMENTS + "/"
  {
  }

  /** The file that attachment number `i`, counted from zero, becomes. */
  function FileOf(s: Submission, i: nat): TarFile
    requires i < |s.attachments|
  {
    TarFile(MemberName(i + 1, s.attachments[i]), s.attachments[i].data)
  }

  /** The file is the attachment's, and its name is fine. */
  predicate StandsFor(f: TarFile, index: nat, a: Attachment) {
    f.data == a.data && SafeTarName(f.name) && Own(f.name) == [ATTACHMENTS, BaseName(index, a)]
  }

  lemma NamedMember(f: TarFile, index: nat, a: Attachment)
    requires ShortIndex(index) && f.name == MemberName(index, a) && f.data == a.data
    ensures StandsFor(f, index, a)
  {
    MemberIsSafe(index, a);
  }

  lemma StandsAtItsPlace(f: TarFile, index: nat, a: Attachment)
    requires StandsFor(f, index, a)
    ensures AtItsPlace(f, false)
  {
  }

  lemma FilesAfterMeta(s: Submission, json: Bytes, i: nat)
    requires i < |s.attachments|
    ensures FilesOf(s, json)[i + 1] == FileOf(s, i)
  {
    assert FilesOf(s, json)[i + 1] == Members(s.attachments)[i];
  }

  lemma MemberStands(s: Submission, json: Bytes, i: nat)
    requires Packable(s, json) && 0 < i <= |s.attachments|
    ensures StandsFor(FilesOf(s, json)[i], i, s.attachments[i - 1])
  {
    FilesAfterMeta(s, json, i - 1);
    DecimalGrows(i, |s.attachments|);
    NamedMember(FilesOf(s, json)[i], i, s.attachments[i - 1]);
  }

  lemma MetaAtItsPlace(f: TarFile)
    requires f.name == META
    ensures AtItsPlace(f, true) && Own(f.name) == [META]
  {
    MetaHarmless();
    OneElement(META);
  }

  lemma PlacesDiffer(f: TarFile, i: nat, a: Attachment, g: TarFile, j: nat, b: Attachment)
    requires StandsFor(f, i, a) && StandsFor(g, j, b) && i != j
    ensures Own(f.name) != Own(g.name)
  {
    BaseNamesDistinct(i, a, j, b);
    assert Own(f.name)[1] == BaseName(i, a) && Own(g.name)[1] == BaseName(j, b);
  }

  lemma MetaDiffers(f: TarFile, g: TarFile, j: nat, b: Attachment)
    requires AtItsPlace(f, true) && StandsFor(g, j, b)
    ensures Own(f.name) != Own(g.name)
  {
  }

  /** meta.json, then one file for each attachment in turn. */
  ghost predicate AllStand(files: seq<TarFile>, json: Bytes, atts: seq<Attachment>) {
    && |files| == |atts| + 1
    && files[0] == TarFile(META, json)
    && forall i :: 0 < i < |files| ==> StandsFor(files[i], i, atts[i - 1])
  }

  lemma FilesStand(s: Submission, json: Bytes)
    requires Packable(s, json)
    ensures AllStand(FilesOf(s, json), json, s.attachments)
  {
    forall i | 0 < i < |FilesOf(s, json)| ensures StandsFor(FilesOf(s, json)[i], i, s.attachments[i - 1]) {
      MemberStands(s, json, i);
    }
  }

  lemma StandingPlacesDiffer(files: seq<TarFile>, json: Bytes, atts: seq<Attachment>, i: nat, j: nat)
    requires AllStand(files, json, atts) && i < j < |files|
    ensures Own(files[i].name) != Own(files[j].name)
  {
    assert StandsFor(files[j], j, atts[j - 1]);
    if i == 0 {
      MetaAtItsPlace(files[0]);
      MetaDiffers(files[0], files[j], j, atts[j - 1]);
    } else {
      assert StandsFor(files[i], i, atts[i - 1]);
      PlacesDiffer(files[i], i, atts[i - 1], files[j], j, atts[j - 1]);
    }
  }

  lemma StandingIsWellNamed(files: seq<TarFile>, json: Bytes, atts: seq<Attachment>)
    requires AllStand(files, json, atts) && AllFit(files)
    ensures WellNamed(files)
  {
    MetaAtItsPlace(files[0]);
    forall i | 0 < i < |files| ensures AtItsPlace(files[i], false) {
      StandsAtItsPlace(files[i], i, atts[i - 1]);
    }
    forall i, j | 0 <= i < j < |files| ensures Own(files[i].name) != Own(files[j].name) {
      StandingPlacesDiffer(files, json, atts, i, j);
    }
  }

  lemma FilesWellNamed(s: Submission, json: Bytes)
    requires Packable(s, json)
    ensures WellNamed(FilesOf(s, json))
  {
    FilesFit(s, json);
    FilesStand(s, json);
    StandingIsWellNamed(FilesOf(s, json), json, s.attachments);
  }

  /** The path of one extracted attachment. */
  ghost function AttachmentPath(base: seq<Name>, atts: seq<Attachment>, i: nat): Path
    requires i < |atts|
  {
    base + [ATTACHMENTS, BaseName(i + 1, atts[i])]
  }

  /** The path is meta.json's or an attachment's. */
  ghost predicate IsExtractedPath(base: seq<Name>, atts: seq<Attachment>, p: Path) {
    p == base + [META] || exists i :: 0 <= i < |atts| && p == AttachmentPath(base, atts, i)
  }

  /** `m` is meta.json and one file per attachment, with exactly their bytes, and no others. */
  ghost predicate IsSubmission(m: map<Path, Bytes>, base: seq<Name>, atts: seq<Attachment>, json: Bytes) {
    && base + [META] in m && m[base + [META]] == json
    && (forall i :: 0 <= i < |atts| ==>
          AttachmentPath(base, atts, i) in m && m[AttachmentPath(base, atts, i)] == atts[i].data)
    && (forall p :: p in m ==> IsExtractedPath(base, atts, p))
  }

  /** The files stand in the map where their names say, and nothing else does. */
  ghost predicate PlacedByName(m: map<Path, Bytes>, base: seq<Name>, files: seq<TarFile>) {
    && (forall i :: 0 <= i < |files| ==> Target(base, files[i]) in m && m[Target(base, files[i])] == files[i].data)
    && (forall p :: p in m ==> exists i :: 0 <= i < |files| && p == Target(base, files[i]))
  }

  lemma AllPlacedByName(base: seq<Name>, files: seq<TarFile>)
    requires WellNamed(files)
    ensures PlacedByName(Placed(base, files, |files|), base, files)
  {
    var m := Placed(base, files, |files|);
    forall i | 0 <= i < |files| ensures Target(base, files[i]) in m && m[Target(base, files[i])] == files[i].data {
      PlacedAt(base, files, |files|, i);
    }
    forall p | p in m ensures exists i :: 0 <= i < |files| && p == Target(base, files[i]) {
      PlacedOnly(base, files, |files|, p);
    }
  }

  lemma StandingTarget(base: seq<Name>, files: seq<TarFile>, json: Bytes, atts: seq<Attachment>, i: nat)
    requires AllStand(files, json, atts) && 0 < i < |files|
    ensures Target(base, files[i]) == AttachmentPath(base, atts, i - 1) && files[i].data == atts[i - 1].data
  {
    assert StandsFor(files[i], i, atts[i - 1]);
  }

  lemma StandingMetaThere(m: map<Path, Bytes>, base: seq<Name>, files: seq<TarFile>, json: Bytes, atts: seq<Attachment>)
    requires AllStand(files, json, atts) && PlacedByName(m, base, files)
    ensures base + [META] in m && m[base + [META]] == json
  {
    MetaAtItsPlace(files[0]);
    assert Target(base, files[0]) == base + [META];
  }

  lemma StandingFileThere(m: map<Path, Bytes>, base: seq<Name>, files: seq<TarFile>, json: Bytes, atts: seq<Attachment>,
                          i: nat)
    requires AllStand(files, json, atts) && PlacedByName(m, base, files) && i < |atts|
    ensures AttachmentPath(base, atts, i) in m && m[AttachmentPath(base, atts, i)] == atts[i].data
  {
    var f := files[i + 1];
    StandingTarget(base, files, json, atts, i + 1);
    assert Target(base, f) in m && m[Target(base, f)] == f.data;
  }

  lemma OnlyStandingFiles(m: map<Path, Bytes>, base: seq<Name>, files: seq<TarFile>, json: Bytes, atts: seq<Attachment>,
                          p: Path)
    requires AllStand(files, json, atts) && PlacedByName(m, base, files) && p in m
    ensures IsExtractedPath(base, atts, p)
  {
    var k :| 0 <= k < |files| && p == Target(base, files[k]);
    if k == 0 {
      MetaAtItsPlace(files[0]);
    } else {
      StandingTarget(base, files, json, atts, k);
    }
  }

  lemma StandingIsSubmission(m: map<Path, Bytes>, base: seq<Name>, files: seq<TarFile>, json: Bytes, atts: seq<Attachment>)
    requires AllStand(files, json, atts) && PlacedByName(m, base, files)
    ensures IsSubmission(m, base, atts, json)
  {
    StandingMetaThere(m, base, files, json, atts);
    forall i | 0 <= i < |atts|
      ensures AttachmentPath(base, atts, i) in m && m[AttachmentPath(base, atts, i)] == atts[i].data
    {
      StandingFileThere(m, base, files, json, atts, i);
    }
    forall p | p in m ensures IsExtractedPath(base, atts, p) {
      OnlyStandingFiles(m, base, files, json, atts, p);
    }
  }

  lemma PlacedIsSubmission(s: Submission, json: Bytes, base: seq<Name>)
    requires Packable(s, json)
    ensures IsSubmission(Placed(base, FilesOf(s, json), |FilesOf(s, json)|), base, s.attachments, json)
  {
    var files := FilesOf(s, json);
    FilesWellNamed(s, json);
    FilesStand(s, json);
    AllPlacedByName(base, files);
    StandingIsSubmission(Placed(base, files, |files|), base, files, json, s.attachments);
  }

  /** The blob is the sealed archive of the files, padded. */
  ghost predicate SealsFiles(blob: Bytes, files: seq<TarFile>, pad: nat, seal: Bytes -> Bytes)
    requires AllFit(files)
  {
    blob == Crypto.Wrapped(Crypto.VERSION, seal(Archive(files) + Zeros(pad)))
  }

  method PackAndSeal(s: Submission, marshal: Meta -> Option<Bytes>, richer: seq<TarFile> -> Bytes, seal: Bytes -> Bytes)
    returns (blob: Bytes, ghost pad: nat)
    requires marshal(MetaOf(s)).Some? && Packable(s, marshal(MetaOf(s)).value)
    ensures var files := FilesOf(s, marshal(MetaOf(s)).value);
      WellNamed(files) && SealsFiles(blob, files, pad, seal)
  {
    FilesWellNamed(s, marshal(MetaOf(s)).value);
    var packed;
    packed, pad := PackSubmission(s, marshal, richer);
    blob := EncryptToReceiver(packed.value, seal);
  }

  lemma SealedIsEnvelope(blob: Bytes, files: seq<TarFile>, pad: nat, seal: Bytes -> Bytes, open: Bytes -> Option<Bytes>)
    requires Age(seal, open) && WellNamed(files) && SealsFiles(blob, files, pad, seal)
    ensures IsEnvelopeOf(blob, open, files, Zeros(pad))
  {
    Crypto.EnvelopeRoundTrip(Crypto.VERSION, seal(Archive(files) + Zeros(pad)), []);
  }

  /**
    Pack and seal on the server, open and extract at the receiver's: into a
    fresh directory this leaves meta.json, one file per attachment with
    exactly its bytes, and nothing else; all other files stay.
   */
  method PackThenExtract(s: Submission, marshal: Meta -> Option<Bytes>, richer: seq<TarFile> -> Bytes,
                         seal: Bytes -> Bytes, open: Bytes -> Option<Bytes>, disk: Disk, base: seq<Name>)
    returns (r: Outcome, json: Bytes, ghost extracted: map<Path, Bytes>)
    requires marshal(MetaOf(s)).Some? && Packable(s, marshal(MetaOf(s)).value) && Age(seal, open)
    requires disk.Valid() && disk.FaultFree() && AllPlain(base)
    requires NoPathAt(disk.files, disk.dirs, base)
    modifies disk
    ensures r == Done && Some(json) == marshal(MetaOf(s))
    ensures IsSubmission(extracted, base, s.attachments, json)
    ensures disk.files == old(disk.files) + extracted
    ensures disk.dirs == old(disk.dirs) + Prefixes(base) + (if s.attachments == [] then {} else {base + [ATTACHMENTS]})
  {
    json := marshal(MetaOf(s)).value;
    ghost var files, pad := FilesOf(s, json), 0;
    var blob;
    blob, pad := PackAndSeal(s, marshal, richer, seal);
    SealedIsEnvelope(blob, files, pad, seal, open);
    PlacedIsSubmission(s, json, base);
    extracted := Placed(base, files, |files|);
    r := Decrypt(disk, blob, open, base, files, Zeros(pad));
  }
}
