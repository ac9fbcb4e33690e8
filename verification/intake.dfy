/**
  The submission rule of the `/submit` form: trim the four text fields and
  refuse the submission when one is empty; then, for each of the two photo
  fields, store the file when it has a name with an allowed extension, or
  warn when it has a name with another extension. A refused photo never
  blocks the report.
 */
module Intake {
  import opened Wrappers
  import opened Text
  import opened Clock
  import opened Upload
  import opened Reports

  /** The two photo fields of the form, in the order the handler visits them. */
  datatype Slot = FotoAntes | FotoDespues

  /** What the form sends. A text field the form leaves out arrives as "".
      A photo field is the name of the file part sent for it, or `None` when
      no part was sent. */
  datatype Submission = Submission(
    areaTrabajo: string,
    lugarTrabajo: string,
    especialidad: string,
    actividad: string,
    fotoAntes: Option<string>,
    fotoDespues: Option<string>)

  /** Either nothing is stored, or the draft handed to the store together
      with the photo fields that drew a format warning. */
  datatype Outcome = Rejected | Accepted(draft: Draft, warnings: seq<Slot>)

  function FileIn(sub: Submission, slot: Slot): Option<string> {
    match slot
    case FotoAntes => sub.fotoAntes
    case FotoDespues => sub.fotoDespues
  }

  /** `file and file.filename`: a part was sent and its name is not empty. */
  predicate Named(file: Option<string>) {
    file.Some? && file.value != ""
  }

  /** The reference a photo field ends up with. */
  function PhotoRef(file: Option<string>, at: DateTime, secure: string -> string): Option<string> {
    if Named(file) && AllowedFile(file.value)
    then Some(Reference(StoredName(at, secure, file.value)))
    else None
  }

  /** A named file with a refused extension draws a warning. */
  predicate Warns(file: Option<string>) {
    Named(file) && !AllowedFile(file.value)
  }

  /** A text field that `strip()` empties: nothing but whitespace. */
  predicate Blank(s: string) {
    forall k :: 0 <= k < |s| ==> IsSpace(s[k])
  }

  /** The photo fields that draw a format warning, in field order. */
  function WarningsOf(sub: Submission): seq<Slot> {
    (if Warns(sub.fotoAntes) then [FotoAntes] else [])
    + (if Warns(sub.fotoDespues) then [FotoDespues] else [])
  }

  /** The whole rule as one value: `clock` gives the time read when a photo
      field's file is saved, `secure` stands for `secure_filename`. */
  function Rule(sub: Submission, clock: Slot -> DateTime, secure: string -> string): Outcome {
    var area := Strip(sub.areaTrabajo);
    var lugar := Strip(sub.lugarTrabajo);
    var especialidad := Strip(sub.especialidad);
    var actividad := Strip(sub.actividad);
    if area == [] || lugar == [] || especialidad == [] || actividad == [] then Rejected
    else
      Accepted(
        Draft(area, lugar, especialidad, actividad,
              PhotoRef(sub.fotoAntes, clock(FotoAntes), secure),
              PhotoRef(sub.fotoDespues, clock(FotoDespues), secure)),
        WarningsOf(sub))
  }

  /** The handler: validation first, then the loop over the two photo fields. */
  method Submit(sub: Submission, clock: Slot -> DateTime, secure: string -> string)
    returns (out: Outcome)
    ensures out == Rule(sub, clock, secure)
  {
    var area := Strip(sub.areaTrabajo);
    var lugar := Strip(sub.lugarTrabajo);
    var especialidad := Strip(sub.especialidad);
    var actividad := Strip(sub.actividad);
    if area == [] || lugar == [] || especialidad == [] || actividad == [] {
      return Rejected;
    }

    var fotoAntes: Option<string> := None;
    var fotoDespues: Option<string> := None;
    var warnings: seq<Slot> := [];
    var fields := [FotoAntes, FotoDespues];
    for k := 0 to |fields|
      invariant fotoAntes == if k > 0 then PhotoRef(sub.fotoAntes, clock(FotoAntes), secure) else None
      invariant fotoDespues == if k > 1 then PhotoRef(sub.fotoDespues, clock(FotoDespues), secure) else None
      invariant k == 0 ==> warnings == []
      invariant k == 1 ==> warnings == if Warns(sub.fotoAntes) then [FotoAntes] else []
      invariant k == 2 ==> warnings == WarningsOf(sub)
    {
      var field := fields[k];
      var file := FileIn(sub, field);
      assert file == if k == 0 then sub.fotoAntes else sub.fotoDespues;
      if Named(file) && AllowedFile(file.value) {
        // the file is saved under this name; the write itself is not modelled
        var filename := StoredName(clock(field), secure, file.value);
        if field == FotoAntes {
          fotoAntes := Some(Reference(filename));
        } else {
          fotoDespues := Some(Reference(filename));
        }
      } else if Named(file) {
        warnings := warnings + [field];
      }
    }
    out := Accepted(Draft(area, lugar, especialidad, actividad, fotoAntes, fotoDespues), warnings);
    RuleAccepts(sub, clock, secure);
  }

  /** The accepting branch of the rule, spelled out. */
  lemma RuleAccepts(sub: Submission, clock: Slot -> DateTime, secure: string -> string)
    requires Strip(sub.areaTrabajo) != [] && Strip(sub.lugarTrabajo) != []
    requires Strip(sub.especialidad) != [] && Strip(sub.actividad) != []
    ensures Rule(sub, clock, secure) ==
      Accepted(Draft(Strip(sub.areaTrabajo), Strip(sub.lugarTrabajo), Strip(sub.especialidad), Strip(sub.actividad),
                     PhotoRef(sub.fotoAntes, clock(FotoAntes), secure),
                     PhotoRef(sub.fotoDespues, clock(FotoDespues), secure)),
               WarningsOf(sub))
  {
  }

  // ---------------------------------------------------------------------------
  // Properties of the rule
  // ---------------------------------------------------------------------------

  /** A submission is refused exactly when one of the four text fields holds
      nothing but whitespace. */
  lemma RejectedIff(sub: Submission, clock: Slot -> DateTime, secure: string -> string)
    ensures Rule(sub, clock, secure).Rejected? <==>
      Blank(sub.areaTrabajo) || Blank(sub.lugarTrabajo) || Blank(sub.especialidad) || Blank(sub.actividad)
  {
    StripEmptyIff(sub.areaTrabajo);
    StripEmptyIff(sub.lugarTrabajo);
    StripEmptyIff(sub.especialidad);
    StripEmptyIff(sub.actividad);
  }

  /** An accepted submission stores the trimmed text fields, each non-empty
      and free of surrounding whitespace. */
  lemma AcceptedFieldsTrimmed(sub: Submission, clock: Slot -> DateTime, secure: string -> string)
    requires Rule(sub, clock, secure).Accepted?
    ensures var d := Rule(sub, clock, secure).draft;
      && d.areaTrabajo == Strip(sub.areaTrabajo) && d.lugarTrabajo == Strip(sub.lugarTrabajo)
      && d.especialidad == Strip(sub.especialidad) && d.actividad == Strip(sub.actividad)
      && Trimmed(d.areaTrabajo) && Trimmed(d.lugarTrabajo)
      && Trimmed(d.especialidad) && Trimmed(d.actividad)
  {
    StripIsInfix(sub.areaTrabajo);
    StripIsInfix(sub.lugarTrabajo);
    StripIsInfix(sub.especialidad);
    StripIsInfix(sub.actividad);
  }

  /** Non-empty, and neither starting nor ending with whitespace. */
  predicate Trimmed(s: string) {
    s != [] && !IsSpace(s[0]) && !IsSpace(s[|s| - 1])
  }

  /** A photo field gets a reference exactly when its file has a name with an
      allowed extension, and the reference points at the saved file; it draws
      a warning exactly when its file has a name with another extension. */
  lemma PhotoSlotRule(sub: Submission, clock: Slot -> DateTime, secure: string -> string, slot: Slot)
    requires Rule(sub, clock, secure).Accepted?
    ensures var out := Rule(sub, clock, secure);
      var file := FileIn(sub, slot);
      var ref := if slot == FotoAntes then out.draft.fotoAntes else out.draft.fotoDespues;
      && (ref.Some? <==> file.Some? && file.value != "" && AllowedFile(file.value))
      && (ref.Some? ==> ref.value == "/uploads/" + UploadStamp(clock(slot)) + secure(file.value))
      && (slot in out.warnings <==> file.Some? && file.value != "" && !AllowedFile(file.value))
  {
    var out := Rule(sub, clock, secure);
    assert out.draft.fotoAntes == PhotoRef(sub.fotoAntes, clock(FotoAntes), secure);
    assert out.draft.fotoDespues == PhotoRef(sub.fotoDespues, clock(FotoDespues), secure);
    assert out.warnings == WarningsOf(sub);
    PhotoRefRule(FileIn(sub, slot), clock(slot), secure);
    WarningsOfRule(sub, slot);
  }

  lemma PhotoRefRule(file: Option<string>, at: DateTime, secure: string -> string)
    ensures PhotoRef(file, at, secure).Some? <==> Named(file) && AllowedFile(file.value)
    ensures PhotoRef(file, at, secure).Some? ==>
      PhotoRef(file, at, secure).value == "/uploads/" + UploadStamp(at) + secure(file.value)
  {
  }

  lemma WarningsOfRule(sub: Submission, slot: Slot)
    ensures slot in WarningsOf(sub) <==> Warns(FileIn(sub, slot))
  {
  }

  /** Photos never decide whether a report is stored: two submissions that
      differ only in their files are both accepted or both refused, and a
      refused file only drops its own reference. */
  lemma PhotosDoNotBlock(sub: Submission, files: Submission, clock: Slot -> DateTime, secure: string -> string)
    requires files.areaTrabajo == sub.areaTrabajo && files.lugarTrabajo == sub.lugarTrabajo
    requires files.especialidad == sub.especialidad && files.actividad == sub.actividad
    ensures Rule(sub, clock, secure).Accepted? == Rule(files, clock, secure).Accepted?
    ensures Rule(sub, clock, secure).Accepted? ==>
      var d, e := Rule(sub, clock, secure).draft, Rule(files, clock, secure).draft;
      && d.areaTrabajo == e.areaTrabajo && d.lugarTrabajo == e.lugarTrabajo
      && d.especialidad == e.especialidad && d.actividad == e.actividad
  {
  }

  /** Warnings come in field order, at most one per field. */
  lemma WarningsInFieldOrder(sub: Submission, clock: Slot -> DateTime, secure: string -> string)
    requires Rule(sub, clock, secure).Accepted?
    ensures var w := Rule(sub, clock, secure).warnings;
      |w| <= 2 && (|w| == 2 ==> w == [FotoAntes, FotoDespues])
  {
  }

  /** Submitting and committing: the new last row of the store holds the
      trimmed fields and the photo references of the rule, the rows before it
      are untouched, and a refused submission leaves the store as it was. */
  function Record(store: seq<Report>, out: Outcome, id: int, now: DateTime): (s: seq<Report>)
    ensures out.Rejected? ==> s == store
    ensures out.Accepted? ==> |s| == |store| + 1 && s[..|store|] == store
  {
    if out.Rejected? then store else Commit(store, out.draft, id, now)
  }

  lemma SubmittedReportStored(store: seq<Report>, sub: Submission, clock: Slot -> DateTime,
                              secure: string -> string, id: int, now: DateTime)
    requires !Blank(sub.areaTrabajo) && !Blank(sub.lugarTrabajo)
    requires !Blank(sub.especialidad) && !Blank(sub.actividad)
    ensures var s := Record(store, Rule(sub, clock, secure), id, now);
      && |s| == |store| + 1 && s[..|store|] == store
      && s[|store|] == Report(id, Strip(sub.areaTrabajo), Strip(sub.lugarTrabajo),
                              Strip(sub.especialidad), Strip(sub.actividad),
                              PhotoRef(sub.fotoAntes, clock(FotoAntes), secure),
                              PhotoRef(sub.fotoDespues, clock(FotoDespues), secure), now)
  {
    RejectedIff(sub, clock, secure);
  }

  // ---------------------------------------------------------------------------
  // Two photos saved in the same second
  // ---------------------------------------------------------------------------

  /** As written, the stored name keeps only the second of the upload time and
      the sanitised name. When both photo fields carry the same file name and
      both saves read the clock within one second, both fields get the same
      reference: the second save overwrites the first file, and both columns
      point at the "after" photo. */
  lemma SameSecondCollision(sub: Submission, clock: Slot -> DateTime, secure: string -> string)
    requires Rule(sub, clock, secure).Accepted?
    requires sub.fotoAntes == sub.fotoDespues && Named(sub.fotoAntes) && AllowedFile(sub.fotoAntes.value)
    requires UploadStamp(clock(FotoAntes)) == UploadStamp(clock(FotoDespues))
    ensures var d := Rule(sub, clock, secure).draft;
      d.fotoAntes.Some? && d.fotoAntes == d.fotoDespues
  {
    PhotoSlotRule(sub, clock, secure, FotoAntes);
    PhotoSlotRule(sub, clock, secure, FotoDespues);
  }

  /** Two readings of the clock 899 microseconds apart, within one second. */
  const FirstSave: DateTime := Instant(2024, 5, 6, 10, 0, 0, 1)
  const SecondSave: DateTime := Instant(2024, 5, 6, 10, 0, 0, 900)

  lemma SameSecondStamps()
    ensures FirstSave != SecondSave
    ensures UploadStamp(FirstSave) == UploadStamp(SecondSave) == "20240506100000_"
  {
  }

  function TwoSaves(slot: Slot): DateTime {
    if slot == FotoAntes then FirstSave else SecondSave
  }

  /** A phone that names both photos `image.jpg`, saved at those two times:
      the two different files end up under one stored name. */
  lemma ImageJpgTwice(sub: Submission, secure: string -> string)
    requires Rule(sub, TwoSaves, secure).Accepted?
    requires sub.fotoAntes == Some("image.jpg") && sub.fotoDespues == Some("image.jpg")
    ensures var d := Rule(sub, TwoSaves, secure).draft;
      d.fotoAntes.Some? && d.fotoAntes == d.fotoDespues
  {
    ImageJpgName();
    SameSecondStamps();
    SameSecondCollision(sub, TwoSaves, secure);
  }

  /** The name phone browsers commonly give a camera photo. */
  lemma ImageJpgName()
    ensures AllowedFile("image.jpg")
  {
    JpgAllowed("image");
    assert "image" + ".jpg" == "image.jpg";
  }

  /** The corrected name: the field's own tag between the stamp and the
      sanitised name, so that the two photos of one submission can never
      share a file, whatever the clock reads. */
  function SlotTag(slot: Slot): string {
    match slot
    case FotoAntes => "antes_"
    case FotoDespues => "despues_"
  }

  function TaggedStoredName(at: DateTime, slot: Slot, secure: string -> string, name: string): string {
    UploadStamp(at) + SlotTag(slot) + secure(name)
  }

  /** The reference a photo field gets under the corrected name. */
  function TaggedPhotoRef(file: Option<string>, slot: Slot, at: DateTime, secure: string -> string): Option<string> {
    if Named(file) && AllowedFile(file.value)
    then Some(Reference(TaggedStoredName(at, slot, secure, file.value)))
    else None
  }

  /** Under the corrected name the two fields' references differ for every
      pair of times and every pair of file names. */
  lemma TaggedReferencesDiffer(a: DateTime, b: DateTime, secure: string -> string, x: string, y: string)
    ensures Reference(TaggedStoredName(a, FotoAntes, secure, x)) != Reference(TaggedStoredName(b, FotoDespues, secure, y))
  {
    var r := Reference(TaggedStoredName(a, FotoAntes, secure, x));
    var q := Reference(TaggedStoredName(b, FotoDespues, secure, y));
    assert r[24] == 'a';
    assert q[24] == 'd';
  }

  /** The property the naming scheme was meant to have: the two photos of one
      submission never share a stored file. */
  lemma TaggedPhotosNeverCollide(sub: Submission, clock: Slot -> DateTime, secure: string -> string)
    ensures var a := TaggedPhotoRef(sub.fotoAntes, FotoAntes, clock(FotoAntes), secure);
      var d := TaggedPhotoRef(sub.fotoDespues, FotoDespues, clock(FotoDespues), secure);
      a.Some? && d.Some? ==> a.value != d.value
  {
    if Named(sub.fotoAntes) && Named(sub.fotoDespues) {
      TaggedReferencesDiffer(clock(FotoAntes), clock(FotoDespues), secure, sub.fotoAntes.value, sub.fotoDespues.value);
    }
  }
}
