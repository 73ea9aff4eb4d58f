/** What a submission must pass before it becomes a case: text fields and attachments. */
module Intake {
  import opened Common
  import opened Text
  import opened Tarpack
  import Utf8

  const MEGABYTE := 1024 * 1024

  datatype Field = Field(id: string, required: bool, maxLength: int)

  datatype AttachmentRules = AttachmentRules(
    enabled: bool,
    maxFiles: int,
    maxSizeMBPerFile: int,
    maxTotalSizeMB: int,
    stripMetadata: bool,
    verify: Bytes -> Option<Bytes>,             // VerifyAttachment: the sniffed type, if it is allowed
    strip: Bytes -> Option<(Bytes, Bytes)>)     // StripImageMetadata: the new image and its type

  /** One uploaded file; `content` is None when it cannot be opened or read. */
  datatype FileHeader = FileHeader(filename: Bytes, size: nat, content: Option<Bytes>)

  /** The form parser counted the bytes that it kept. */
  type Upload = h: FileHeader | h.content.Some? ==> |h.content.value| == h.size witness FileHeader([], 0, None)

  // ---- text fields ----

  /** r.FormValue: empty for a field that was not sent. */
  function FormValue(form: map<string, string>, key: string): string {
    if key in form then form[key] else ""
  }

  function Entered(form: map<string, string>, f: Field): string {
    TrimSpace(FormValue(form, f.id))
  }

  predicate FieldPasses(form: map<string, string>, f: Field) {
    && (f.required ==> Entered(form, f) != "")
    && (f.maxLength > 0 ==> Utf8.Length(Entered(form, f)) <= f.maxLength)
  }

  ghost predicate FieldsPass(form: map<string, string>, fields: seq<Field>) {
    forall i :: 0 <= i < |fields| ==> FieldPasses(form, fields[i])
  }

  /** The values are the trimmed, non-empty entries of the first `n` configured fields, and nothing else of the form. */
  ghost predicate AreEntries(values: map<string, string>, form: map<string, string>, fields: seq<Field>, n: nat)
    requires n <= |fields|
  {
    && (forall i :: 0 <= i < n && Entered(form, fields[i]) != "" ==> fields[i].id in values)
    && (forall k :: k in values ==> values[k] == TrimSpace(FormValue(form, k)) && values[k] != "" && IsField(fields, n, k))
  }

  ghost predicate IsField(fields: seq<Field>, n: nat, k: string)
    requires n <= |fields|
  {
    exists i :: 0 <= i < n && fields[i].id == k
  }

  lemma IsFieldGrows(fields: seq<Field>, n: nat, k: string)
    requires n < |fields|
    ensures IsField(fields, n + 1, k) <==> IsField(fields, n, k) || k == fields[n].id
  {
    if i :| 0 <= i < n + 1 && fields[i].id == k {
      assert i < n ==> IsField(fields, n, k);
    }
  }

  lemma EntryAdded(values: map<string, string>, form: map<string, string>, fields: seq<Field>, n: nat)
    requires n < |fields| && AreEntries(values, form, fields, n) && Entered(form, fields[n]) != ""
    ensures AreEntries(values[fields[n].id := Entered(form, fields[n])], form, fields, n + 1)
  {
    var id, v := fields[n].id, Entered(form, fields[n]);
    forall k | k in values || k == id ensures IsField(fields, n + 1, k) {
      IsFieldGrows(fields, n, k);
    }
  }

  lemma NothingEntered(values: map<string, string>, form: map<string, string>, fields: seq<Field>, n: nat)
    requires n < |fields| && AreEntries(values, form, fields, n) && Entered(form, fields[n]) == ""
    ensures AreEntries(values, form, fields, n + 1)
  {
    forall k | k in values ensures IsField(fields, n + 1, k) {
      IsFieldGrows(fields, n, k);
    }
  }

  // ---- the same without trimming ----

  /** What was entered for this field, without the white space around it; nothing if it was not sent. */
  ghost predicate IsEntry(form: map<string, string>, id: string, core: string) {
    if id in form then Surrounds(form[id], core) else core == ""
  }

  lemma EntryIs(form: map<string, string>, id: string, core: string)
    ensures IsEntry(form, id, core) <==> TrimSpace(FormValue(form, id)) == core
  {
    if id in form {
      TrimIffSurrounds(form[id], core);
    }
  }

  /** A field that must be filled in is, and what is entered has no more bytes than allowed. */
  ghost predicate InOrder(form: map<string, string>, f: Field) {
    exists core :: IsEntry(form, f.id, core) && (f.required ==> core != "")
                   && (f.maxLength > 0 ==> |Utf8.Encode(core)| <= f.maxLength)
  }

  lemma PassesIffInOrder(form: map<string, string>, f: Field)
    ensures FieldPasses(form, f) <==> InOrder(form, f)
  {
    EntryIs(form, f.id, Entered(form, f));
    Utf8.LengthCounts(Entered(form, f));
    if core :| IsEntry(form, f.id, core) && (f.required ==> core != "")
               && (f.maxLength > 0 ==> |Utf8.Encode(core)| <= f.maxLength) {
      EntryIs(form, f.id, core);
    }
  }

  /** Every configured field that was filled in, with what was entered, and nothing else. */
  ghost predicate FieldsAre(values: map<string, string>, form: map<string, string>, fields: seq<Field>) {
    && (forall k :: k in values ==> IsEntry(form, k, values[k]) && values[k] != "" && IsField(fields, |fields|, k))
    && (forall i, core :: 0 <= i < |fields| && IsEntry(form, fields[i].id, core) && core != "" ==>
          fields[i].id in values && values[fields[i].id] == core)
  }

  lemma EntriesAreFields(values: map<string, string>, form: map<string, string>, fields: seq<Field>)
    requires AreEntries(values, form, fields, |fields|)
    ensures FieldsAre(values, form, fields)
  {
    forall k | k in values ensures IsEntry(form, k, values[k]) {
      EntryIs(form, k, values[k]);
    }
    forall i, core | 0 <= i < |fields| && IsEntry(form, fields[i].id, core) && core != ""
      ensures fields[i].id in values && values[fields[i].id] == core
    {
      EntryIs(form, fields[i].id, core);
    }
  }

  method CollectFields(fields: seq<Field>, form: map<string, string>) returns (ok: bool, values: map<string, string>)
    ensures ok <==> FieldsPass(form, fields)
    ensures ok ==> AreEntries(values, form, fields, |fields|)
  {
    values := map[];
    for i := 0 to |fields|
      invariant forall j :: 0 <= j < i ==> FieldPasses(form, fields[j])
      invariant AreEntries(values, form, fields, i)
    {
      var f := fields[i];
      var v := TrimSpace(FormValue(form, f.id));
      if f.required && v == "" {
        return false, map[];
      }
      if f.maxLength > 0 && Utf8.Length(v) > f.maxLength {
        return false, map[];
      }
      if v != "" {
        EntryAdded(values, form, fields, i);
        values := values[f.id := v];
      } else {
        NothingEntered(values, form, fields, i);
      }
    }
    ok := true;
  }

  // ---- attachments ----

  function TotalSize(files: seq<Upload>): nat {
    if files == [] then 0 else TotalSize(files[..|files| - 1]) + files[|files| - 1].size
  }

  lemma {:induction false} TotalGrows(files: seq<Upload>, n: nat)
    requires n <= |files|
    ensures TotalSize(files[..n]) <= TotalSize(files)
    decreases |files|
  {
    if n == |files| {
      assert files[..n] == files;
    } else {
      TotalGrows(files[..|files| - 1], n);
      assert files[..|files| - 1][..n] == files[..n];
    }
  }

  predicate IsStripped(rules: AttachmentRules, mime: Bytes) {
    rules.stripMetadata && "image/" <= mime
  }

  /** One file on its own: small enough, readable, of an allowed type, and stripped if it is an image. */
  predicate Acceptable(rules: AttachmentRules, u: Upload) {
    && u.size <= rules.maxSizeMBPerFile * MEGABYTE
    && u.content.Some?
    && rules.verify(u.content.value).Some?
    && (IsStripped(rules, rules.verify(u.content.value).value) ==> rules.strip(u.content.value).Some?)
  }

  /** What goes into the archive for it: the original name with the sniffed type and bytes, or the stripped ones. */
  function AcceptedAs(rules: AttachmentRules, u: Upload): Attachment
    requires Acceptable(rules, u)
  {
    var mime := rules.verify(u.content.value).value;
    if IsStripped(rules, mime) then
      var s := rules.strip(u.content.value).value;
      Attachment(u.filename, s.1, s.0)
    else
      Attachment(u.filename, mime, u.content.value)
  }

  /** Under this type and with these bytes: those of the stripped image, or the upload's own with the sniffed type. */
  ghost predicate TakenAs(rules: AttachmentRules, u: Upload, mime: Bytes, data: Bytes) {
    && u.content.Some? && rules.verify(u.content.value).Some?
    && var content, sniffed := u.content.value, rules.verify(u.content.value).value;
    if rules.stripMetadata && "image/" <= sniffed then rules.strip(content) == Some((data, mime))
    else mime == sniffed && data == content
  }

  lemma AcceptedIsTaken(rules: AttachmentRules, u: Upload)
    requires Acceptable(rules, u)
    ensures var a := AcceptedAs(rules, u); a.originalName == u.filename && TakenAs(rules, u, a.mime, a.data)
  {
  }

  /** If this file is an image that gets stripped, the result is below the limit. */
  predicate StripsSmall(rules: AttachmentRules, u: Upload, limit: nat) {
    u.content.Some? && rules.strip(u.content.value).Some? ==> |rules.strip(u.content.value).value.0| < limit
  }

  /** An accepted file that was not stripped is within the configured cap. */
  lemma AcceptedSize(rules: AttachmentRules, u: Upload, limit: nat)
    requires Acceptable(rules, u) && rules.maxSizeMBPerFile * MEGABYTE < limit && StripsSmall(rules, u, limit)
    ensures |AcceptedAs(rules, u).data| < limit
  {
  }

  ghost predicate AllAcceptable(rules: AttachmentRules, files: seq<Upload>) {
    forall i :: 0 <= i < |files| ==> Acceptable(rules, files[i])
  }

  ghost predicate AttachmentsPass(rules: AttachmentRules, files: seq<Upload>) {
    && |files| <= rules.maxFiles
    && AllAcceptable(rules, files)
    && (files != [] ==> TotalSize(files) <= rules.maxTotalSizeMB * MEGABYTE)
  }

  ghost predicate AreAccepted(rules: AttachmentRules, files: seq<Upload>, atts: seq<Attachment>)
    requires AllAcceptable(rules, files)
  {
    |atts| == |files| && forall i :: 0 <= i < |files| ==> atts[i] == AcceptedAs(rules, files[i])
  }

  /** The body of the loop: the checks of one file in their order. */
  method AcceptOne(rules: AttachmentRules, u: Upload, before: nat) returns (r: Option<Attachment>)
    ensures r.Some? <==> Acceptable(rules, u) && before + u.size <= rules.maxTotalSizeMB * MEGABYTE
    ensures r.Some? ==> r.value == AcceptedAs(rules, u)
    ensures r.Some? ==> r.value.originalName == u.filename && TakenAs(rules, u, r.value.mime, r.value.data)
  {
    if u.size > rules.maxSizeMBPerFile * MEGABYTE || before + u.size > rules.maxTotalSizeMB * MEGABYTE {
      return None;
    }
    if u.content.None? {
      return None;
    }
    var data := u.content.value;
    var mt := rules.verify(data);
    if mt.None? {
      return None;
    }
    var mime := mt.value;
    if rules.stripMetadata && "image/" <= mime {
      var stripped := rules.strip(data);
      if stripped.None? {
        return None;
      }
      data, mime := stripped.value.0, stripped.value.1;
    }
    r := Some(Attachment(u.filename, mime, data));
  }

  method CollectAttachments(rules: AttachmentRules, files: seq<Upload>) returns (ok: bool, atts: seq<Attachment>)
    ensures ok <==> AttachmentsPass(rules, files)
    ensures ok ==> AllAcceptable(rules, files) && AreAccepted(rules, files, atts)
  {
    atts := [];
    if |files| > rules.maxFiles {
      return false, [];
    }
    var totalSize := 0;
    for i := 0 to |files|
      invariant totalSize == TotalSize(files[..i]) && |atts| == i
      invariant i > 0 ==> totalSize <= rules.maxTotalSizeMB * MEGABYTE
      invariant forall k :: 0 <= k < i ==> Acceptable(rules, files[k]) && atts[k] == AcceptedAs(rules, files[k])
    {
      assert files[..i + 1][..i] == files[..i];
      TotalGrows(files, i + 1);
      var r := AcceptOne(rules, files[i], totalSize);
      if r.None? {
        return false, [];
      }
      totalSize := totalSize + files[i].size;
      atts := atts + [r.value];
    }
    assert files[..|files|] == files;
    ok := true;
  }
}
