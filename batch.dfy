/**
 * The Batch record of `Backend/models/Batch.js`: its fields, the
 * normalisations its setters apply, its validators and defaults.
 */
module BatchModel {
  import opened Prelude
  import Text

  datatype Batch = Batch(
    batchName: string,
    batchCode: string,
    startDate: Date,
    endDate: Date,
    description: Option<string>,
    isActive: bool,
    totalStudents: int)

  function TrimOption(s: Option<string>): Option<string>
  {
    if s.None? then None else Some(Text.Trim(s.value))
  }

  /** The stored form of a batch code: the `uppercase` and `trim` setters. */
  function StoredCode(code: string): (c: string)
    ensures forall i :: 0 <= i < |c| ==> !Text.IsAsciiLower(c[i])
    ensures c == [] || (!Text.IsSpace(c[0]) && !Text.IsSpace(c[|c| - 1]))
    ensures |c| <= |code|
  {
    Text.Trim(Text.ToUpper(code))
  }

  /** Codes that differ only in the case of their letters are stored alike. */
  lemma StoredCodeIgnoresCase(code: string)
    ensures StoredCode(Text.ToUpper(code)) == StoredCode(code)
  {
    Text.UpperIdempotent(code);
  }

  /** A stored code needs no more normalising. */
  lemma StoredCodeIdempotent(code: string)
    ensures StoredCode(StoredCode(code)) == StoredCode(code)
  {
    var c := StoredCode(code);
    assert Text.ToUpper(c) == c;
    Text.TrimIdempotent(Text.ToUpper(code));
  }

  /** The schema validators of a stored batch: a name and a code (the dates are required by type here). */
  predicate FieldsValid(b: Batch)
  {
    b.batchName != "" && b.batchCode != ""
  }

  /** The body of `POST /api/batches`. */
  datatype BatchRequest = BatchRequest(
    batchName: string,
    batchCode: string,
    startDate: Option<Date>,
    endDate: Option<Date>,
    description: Option<string>)

  /** The validators `Batch.create` runs: required name, code and both dates. No order of the dates is demanded. */
  predicate RequestValid(req: BatchRequest)
  {
    && Text.Trim(req.batchName) != ""
    && StoredCode(req.batchCode) != ""
    && req.startDate.Some? && req.endDate.Some?
  }

  /**
   * The document `Batch.create` builds: the route upper-cases the code, the
   * setters normalise, `isActive` starts true and `totalStudents` at 0.
   */
  function FromRequest(req: BatchRequest): (b: Batch)
    requires RequestValid(req)
    ensures FieldsValid(b)
    ensures b.batchName == Text.Trim(req.batchName) && b.batchCode == StoredCode(req.batchCode)
    ensures b.startDate == req.startDate.value && b.endDate == req.endDate.value
    ensures b.isActive && b.totalStudents == 0
  {
    StoredCodeIgnoresCase(req.batchCode);
    Batch(Text.Trim(req.batchName), StoredCode(Text.ToUpper(req.batchCode)),
          req.startDate.value, req.endDate.value, TrimOption(req.description), true, 0)
  }

  /** A batch may end before it starts: nothing relates the two dates. */
  lemma EndBeforeStartAccepted()
    ensures var req := BatchRequest("Evening", "EV1", Some(10), Some(5), None);
      RequestValid(req) && FromRequest(req).endDate < FromRequest(req).startDate
  {
    var req := BatchRequest("Evening", "EV1", Some(10), Some(5), None);
    assert Text.ToUpper("EV1") == "EV1";
    assert !Text.IsSpace('E') && !Text.IsSpace('1') && !Text.IsSpace('g');
  }

  /** The body of `PUT /api/batches/:id`: any subset of the fields, the student counter included. */
  datatype BatchPatch = BatchPatch(
    batchName: Option<string>,
    batchCode: Option<string>,
    startDate: Option<Date>,
    endDate: Option<Date>,
    description: Option<string>,
    isActive: Option<bool>,
    totalStudents: Option<int>)

  /** The update validators (`runValidators`), which check only the paths the body sets. */
  predicate PatchValid(p: BatchPatch)
  {
    && (p.batchName.Some? ==> Text.Trim(p.batchName.value) != "")
    && (p.batchCode.Some? ==> StoredCode(p.batchCode.value) != "")
  }

  /** The batch after an update: supplied fields replace the stored ones through the setters. */
  function ApplyPatch(b: Batch, p: BatchPatch): (r: Batch)
    ensures FieldsValid(b) && PatchValid(p) ==> FieldsValid(r)
    ensures p.totalStudents.None? ==> r.totalStudents == b.totalStudents
    ensures p.totalStudents.Some? ==> r.totalStudents == p.totalStudents.value
    ensures p.batchCode.None? ==> r.batchCode == b.batchCode
    ensures p.batchCode.Some? ==> r.batchCode == StoredCode(p.batchCode.value)
    ensures p.batchName.None? ==> r.batchName == b.batchName
    ensures p.batchName.Some? ==> r.batchName == Text.Trim(p.batchName.value)
    ensures p.startDate.None? ==> r.startDate == b.startDate
    ensures p.startDate.Some? ==> r.startDate == p.startDate.value
    ensures p.endDate.None? ==> r.endDate == b.endDate
    ensures p.endDate.Some? ==> r.endDate == p.endDate.value
    ensures p.description.None? ==> r.description == b.description
    ensures p.description.Some? ==> r.description == Some(Text.Trim(p.description.value))
    ensures p.isActive.None? ==> r.isActive == b.isActive
    ensures p.isActive.Some? ==> r.isActive == p.isActive.value
  {
    Batch(
      if p.batchName.Some? then Text.Trim(p.batchName.value) else b.batchName,
      if p.batchCode.Some? then StoredCode(p.batchCode.value) else b.batchCode,
      if p.startDate.Some? then p.startDate.value else b.startDate,
      if p.endDate.Some? then p.endDate.value else b.endDate,
      if p.description.Some? then TrimOption(p.description) else b.description,
      if p.isActive.Some? then p.isActive.value else b.isActive,
      if p.totalStudents.Some? then p.totalStudents.value else b.totalStudents)
  }

  /** `PATCH /api/batches/:id/toggle-status`: only the active flag changes, to its negation. */
  function Toggle(b: Batch): (r: Batch)
    ensures r.isActive == !b.isActive
    ensures r.(isActive := b.isActive) == b
  {
    b.(isActive := !b.isActive)
  }

  /** Toggling twice restores the batch. */
  lemma ToggleTwice(b: Batch)
    ensures Toggle(Toggle(b)) == b
  {
  }
}
