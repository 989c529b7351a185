/**
 * The record store behind the route handlers of `Backend/routes/batchRoutes.js`,
 * `Backend/routes/studentRoutes.js` and `Backend/routes/markRoutes.js`: three
 * collections keyed by id, the database's unique indexes and the schema
 * validators as invariants, and one method per state-changing handler, run
 * as one sequential, atomic step.
 */
module RecordStore {
  import opened Prelude
  import Text
  import MarkModel
  import StudentModel
  import BatchModel
  import Enrollment

  type Batch = BatchModel.Batch
  type Student = StudentModel.Student
  type Mark = MarkModel.Mark

  /** The kind of record a 404 reply names. */
  datatype Entity = BatchEntity | StudentEntity | MarkEntity

  /** Why a handler answered 400. */
  datatype Reason =
    | BatchCodeExists
    | BatchHasStudents(count: nat)
    | EmailExists
    | EnrollmentExists
    | ObtainedExceedsTotal
    | StudentNotInBatch
    | ValidationFailed
    | DuplicateKey

  /** The failing replies: 400 with its reason, or 404 with the missing record. */
  datatype Failure = BadRequest(reason: Reason) | NotFound(entity: Entity)

  datatype Result<T> = Ok(value: T) | Err(failure: Failure)

  // ---------------------------------------------------------------- unique indexes

  /** The unique indexes on `batchName` and `batchCode`. */
  predicate BatchKeysUnique(batches: map<Id, Batch>)
  {
    forall a, b :: a in batches && b in batches && a != b ==>
      batches[a].batchName != batches[b].batchName && batches[a].batchCode != batches[b].batchCode
  }

  /** The unique indexes on `email` and `enrollmentNumber`. */
  predicate StudentKeysUnique(students: map<Id, Student>)
  {
    forall a, b :: a in students && b in students && a != b ==>
      students[a].email != students[b].email && students[a].enrollmentNumber != students[b].enrollmentNumber
  }

  /** Writing `x` next to `batches` would violate a unique index. */
  predicate BatchClash(batches: map<Id, Batch>, x: Batch)
  {
    exists o :: o in batches && (batches[o].batchName == x.batchName || batches[o].batchCode == x.batchCode)
  }

  /** Writing `x` next to `students` would violate a unique index. */
  predicate StudentClash(students: map<Id, Student>, x: Student)
  {
    exists o :: o in students && (students[o].email == x.email || students[o].enrollmentNumber == x.enrollmentNumber)
  }

  /** `Batch.findOne({ batchCode: code })` finds a batch. */
  predicate CodeTaken(batches: map<Id, Batch>, code: string)
  {
    exists o :: o in batches && batches[o].batchCode == code
  }

  /** `Student.findOne({ email })` finds a student. */
  predicate EmailTaken(students: map<Id, Student>, email: string)
  {
    exists o :: o in students && students[o].email == email
  }

  /** `Student.findOne({ enrollmentNumber })` finds a student. */
  predicate EnrollmentTaken(students: map<Id, Student>, enrollmentNumber: string)
  {
    exists o :: o in students && students[o].enrollmentNumber == enrollmentNumber
  }

  lemma InsertBatchKeepsUnique(batches: map<Id, Batch>, id: Id, x: Batch)
    requires BatchKeysUnique(batches) && !BatchClash(batches - {id}, x)
    ensures BatchKeysUnique(batches[id := x])
  {
    var after := batches[id := x];
    forall a, b | a in after && b in after && a != b
      ensures after[a].batchName != after[b].batchName && after[a].batchCode != after[b].batchCode
    {
      if a == id {
        assert b in batches - {id};
      } else if b == id {
        assert a in batches - {id};
      }
    }
  }

  lemma InsertStudentKeepsUnique(students: map<Id, Student>, id: Id, x: Student)
    requires StudentKeysUnique(students) && !StudentClash(students - {id}, x)
    ensures StudentKeysUnique(students[id := x])
  {
    var after := students[id := x];
    forall a, b | a in after && b in after && a != b
      ensures after[a].email != after[b].email && after[a].enrollmentNumber != after[b].enrollmentNumber
    {
      if a == id {
        assert b in students - {id};
      } else if b == id {
        assert a in students - {id};
      }
    }
  }

  /** `Mark.deleteMany({ student })`: the marks of every other student. */
  function MarksWithout(marks: map<Id, Mark>, student: Id): (r: map<Id, Mark>)
    ensures forall k :: k in r <==> k in marks && marks[k].student != student
    ensures forall k :: k in r ==> r[k] == marks[k]
  {
    map k | k in marks && marks[k].student != student :: marks[k]
  }

  function Max(a: nat, b: nat): nat { if a < b then b else a }

  // ---------------------------------------------------------------- query parameters

  /**
   * The `isActive` query parameter of `GET /api/batches` and `GET /api/students`:
   * absent, it filters nothing; present, it selects active records exactly
   * when it is the string `true`.
   */
  function ActiveQuery(q: Option<string>): (r: Option<bool>)
    ensures r.None? <==> q.None?
    ensures q.Some? ==> (r.value <==> q.value == "true")
  {
    if q.None? then None else Some(q.value == "true")
  }

  /** Any other spelling selects the inactive records. */
  lemma ActiveQueryOtherSpellings()
    ensures ActiveQuery(Some("TRUE")) == Some(false)
    ensures ActiveQuery(Some("1")) == Some(false)
    ensures ActiveQuery(Some("")) == Some(false)
    ensures ActiveQuery(Some("false")) == Some(false)
  {
  }

  // ---------------------------------------------------------------- the store

  /** Every id below the allocator, and so is every id a record refers to. */
  ghost predicate IdsBelow(batches: map<Id, Batch>, students: map<Id, Student>, marks: map<Id, Mark>, nextId: Id)
  {
    && (forall id :: id in batches ==> id < nextId)
    && (forall id :: id in students ==> id < nextId && students[id].batch < nextId)
    && (forall id :: id in marks ==> id < nextId && marks[id].student < nextId && marks[id].batch < nextId)
  }

  /** The schema validators hold of every stored batch. */
  ghost predicate BatchesValid(batches: map<Id, Batch>)
  {
    forall id {:trigger BatchModel.FieldsValid(batches[id])} :: id in batches ==> BatchModel.FieldsValid(batches[id])
  }

  /** The schema validators hold of every stored student. */
  ghost predicate StudentsValid(students: map<Id, Student>)
  {
    forall id {:trigger StudentModel.FieldsValid(students[id])} :: id in students ==> StudentModel.FieldsValid(students[id])
  }

  /** The schema validators hold of every stored mark. */
  ghost predicate MarksValid(marks: map<Id, Mark>)
  {
    forall id {:trigger MarkModel.Persistable(marks[id])} :: id in marks ==> MarkModel.Persistable(marks[id])
  }

  /**
   * A state the database can be in: ids below the allocator, references
   * below it too (a fresh id is never one already mentioned), the unique
   * indexes, and every record passing its schema validators.
   */
  ghost predicate StoreValid(batches: map<Id, Batch>, students: map<Id, Student>, marks: map<Id, Mark>, nextId: Id)
  {
    && IdsBelow(batches, students, marks, nextId)
    && BatchKeysUnique(batches) && StudentKeysUnique(students)
    && BatchesValid(batches) && StudentsValid(students) && MarksValid(marks)
  }

  /** `$inc` on a counter touches no other field, so the batch invariants survive it. */
  lemma BumpKeepsBatchInvariants(batches: map<Id, Batch>, b: Id, delta: int)
    requires BatchKeysUnique(batches) && BatchesValid(batches)
    ensures BatchKeysUnique(Enrollment.Bump(batches, b, delta)) && BatchesValid(Enrollment.Bump(batches, b, delta))
  {
    var after := Enrollment.Bump(batches, b, delta);
    forall x | x in after
      ensures BatchModel.FieldsValid(after[x])
    {
      assert BatchModel.FieldsValid(batches[x]);
    }
  }

  lemma StudentsValidInsert(students: map<Id, Student>, id: Id, s: Student)
    requires StudentsValid(students) && StudentModel.FieldsValid(s)
    ensures StudentsValid(students[id := s])
  {
  }

  lemma StudentsValidRemove(students: map<Id, Student>, id: Id)
    requires StudentsValid(students) && StudentKeysUnique(students)
    ensures StudentsValid(students - {id}) && StudentKeysUnique(students - {id})
  {
  }

  /** A new batch under a fresh id, clashing with no index, keeps the database valid. */
  lemma InsertBatchKeepsValid(batches: map<Id, Batch>, students: map<Id, Student>, marks: map<Id, Mark>, nextId: Id, b: Batch)
    requires StoreValid(batches, students, marks, nextId)
    requires BatchModel.FieldsValid(b) && !BatchClash(batches, b)
    ensures StoreValid(batches[nextId := b], students, marks, nextId + 1)
  {
    assert batches - {nextId} == batches;
    InsertBatchKeepsUnique(batches, nextId, b);
  }

  /** A new student under a fresh id in an existing batch, then `$inc` on that batch, keeps the database valid. */
  lemma InsertStudentKeepsValid(batches: map<Id, Batch>, students: map<Id, Student>, marks: map<Id, Mark>, nextId: Id, s: Student)
    requires StoreValid(batches, students, marks, nextId)
    requires s.batch in batches && StudentModel.FieldsValid(s) && !StudentClash(students, s)
    ensures StoreValid(Enrollment.Bump(batches, s.batch, 1), students[nextId := s], marks, nextId + 1)
  {
    assert students - {nextId} == students;
    InsertStudentKeepsUnique(students, nextId, s);
    StudentsValidInsert(students, nextId, s);
    BumpKeepsBatchInvariants(batches, s.batch, 1);
  }

  lemma MoveCountersKeepsBatchInvariants(batches: map<Id, Batch>, from: Id, to: Option<Id>)
    requires BatchKeysUnique(batches) && BatchesValid(batches)
    ensures BatchKeysUnique(Enrollment.MoveCounters(batches, from, to)) && BatchesValid(Enrollment.MoveCounters(batches, from, to))
  {
    if to.Some? && to.value != from {
      BumpKeepsBatchInvariants(batches, from, -1);
      BumpKeepsBatchInvariants(Enrollment.Bump(batches, from, -1), to.value, 1);
    }
  }

  /** Moving the counters alone, as a refused update leaves them, keeps the database valid. */
  lemma MoveCountersKeepsValid(batches: map<Id, Batch>, students: map<Id, Student>, marks: map<Id, Mark>, nextId: Id,
                               from: Id, to: Option<Id>)
    requires StoreValid(batches, students, marks, nextId)
    ensures StoreValid(Enrollment.MoveCounters(batches, from, to), students, marks, nextId)
  {
    MoveCountersKeepsBatchInvariants(batches, from, to);
    assert Enrollment.MoveCounters(batches, from, to).Keys == batches.Keys;
  }

  lemma WriteStudentKeepsIds(batches: map<Id, Batch>, students: map<Id, Student>, marks: map<Id, Mark>, nextId: Id,
                             after: map<Id, Batch>, id: Id, s: Student)
    requires IdsBelow(batches, students, marks, nextId)
    requires after.Keys == batches.Keys && id in students
    ensures IdsBelow(after, students[id := s], marks, Max(nextId, s.batch + 1))
  {
  }

  /** Moving the counters and writing an updated student keeps the database valid once the allocator passes its batch. */
  lemma WriteStudentKeepsValid(batches: map<Id, Batch>, students: map<Id, Student>, marks: map<Id, Mark>, nextId: Id,
                               id: Id, to: Option<Id>, s: Student)
    requires StoreValid(batches, students, marks, nextId)
    requires id in students && StudentModel.FieldsValid(s) && !StudentClash(students - {id}, s)
    ensures StoreValid(Enrollment.MoveCounters(batches, students[id].batch, to), students[id := s], marks, Max(nextId, s.batch + 1))
  {
    InsertStudentKeepsUnique(students, id, s);
    StudentsValidInsert(students, id, s);
    MoveCountersKeepsBatchInvariants(batches, students[id].batch, to);
    WriteStudentKeepsIds(batches, students, marks, nextId, Enrollment.MoveCounters(batches, students[id].batch, to), id, s);
  }

  /** Deleting a student with its marks, after `$inc: -1` on its batch, keeps the database valid. */
  lemma DeleteStudentKeepsValid(batches: map<Id, Batch>, students: map<Id, Student>, marks: map<Id, Mark>, nextId: Id, id: Id)
    requires StoreValid(batches, students, marks, nextId)
    requires id in students
    ensures StoreValid(Enrollment.Bump(batches, students[id].batch, -1), students - {id}, MarksWithout(marks, id), nextId)
  {
    BumpKeepsBatchInvariants(batches, students[id].batch, -1);
    StudentsValidRemove(students, id);
  }

  /**
   * The checks of `POST /api/students`, in the handler's order: the email,
   * the enrollment number, the batch, then the schema validators and the
   * unique indexes of the document to be stored. The email filter passes
   * through the path's `lowercase` and `trim` setters, so it is compared in
   * its stored form (`NormalizeEmail`; the handler's own lower-casing changes
   * nothing, by `StudentModel.RouteLowercaseRedundant`).
   */
  function StudentAdmission(batches: map<Id, Batch>, students: map<Id, Student>, req: StudentModel.StudentRequest): (r: Result<Student>)
    ensures r.Ok? <==>
      && !EmailTaken(students, StudentModel.NormalizeEmail(req.email))
      && !EnrollmentTaken(students, req.enrollmentNumber)
      && req.batch in batches
      && StudentModel.FieldsValid(StudentModel.FromRequest(req))
      && !StudentClash(students, StudentModel.FromRequest(req))
    ensures r.Ok? ==> r.value == StudentModel.FromRequest(req) && r.value.batch in batches
    ensures r.Ok? ==> StudentModel.FieldsValid(r.value) && !StudentClash(students, r.value)
    ensures EmailTaken(students, StudentModel.NormalizeEmail(req.email)) ==> r == Err(BadRequest(EmailExists))
    ensures !EmailTaken(students, StudentModel.NormalizeEmail(req.email)) && EnrollmentTaken(students, req.enrollmentNumber) ==>
      r == Err(BadRequest(EnrollmentExists))
    ensures r == Err(NotFound(BatchEntity)) <==>
      !EmailTaken(students, StudentModel.NormalizeEmail(req.email)) && !EnrollmentTaken(students, req.enrollmentNumber) && req.batch !in batches
  {
    if EmailTaken(students, StudentModel.NormalizeEmail(req.email)) then Err(BadRequest(EmailExists))
    else if EnrollmentTaken(students, req.enrollmentNumber) then Err(BadRequest(EnrollmentExists))
    else if req.batch !in batches then Err(NotFound(BatchEntity))
    else if !StudentModel.FieldsValid(StudentModel.FromRequest(req)) then Err(BadRequest(ValidationFailed))
    else if StudentClash(students, StudentModel.FromRequest(req)) then Err(BadRequest(DuplicateKey))
    else Ok(StudentModel.FromRequest(req))
  }

  /**
   * The checks of `POST /api/batches`, in the handler's order: the code, then
   * the schema validators and the unique indexes of the document to be
   * stored. The code filter passes through the path's `uppercase` and `trim`
   * setters, so it is compared in its stored form (the route's own
   * upper-casing changes nothing, by `BatchModel.StoredCodeIgnoresCase`).
   */
  function BatchAdmission(batches: map<Id, Batch>, req: BatchModel.BatchRequest): (r: Result<Batch>)
    ensures r.Ok? <==>
      && !CodeTaken(batches, BatchModel.StoredCode(req.batchCode))
      && BatchModel.RequestValid(req)
      && !BatchClash(batches, BatchModel.FromRequest(req))
    ensures r.Ok? ==> r.value == BatchModel.FromRequest(req) && BatchModel.FieldsValid(r.value)
    ensures CodeTaken(batches, BatchModel.StoredCode(req.batchCode)) ==> r == Err(BadRequest(BatchCodeExists))
    ensures !CodeTaken(batches, BatchModel.StoredCode(req.batchCode)) && !BatchModel.RequestValid(req) ==>
      r == Err(BadRequest(ValidationFailed))
    ensures r.Err? ==> r.failure.BadRequest?
  {
    if CodeTaken(batches, BatchModel.StoredCode(req.batchCode)) then Err(BadRequest(BatchCodeExists))
    else if !BatchModel.RequestValid(req) then Err(BadRequest(ValidationFailed))
    else if BatchClash(batches, BatchModel.FromRequest(req)) then Err(BadRequest(DuplicateKey))
    else Ok(BatchModel.FromRequest(req))
  }

  /** A student admitted by `StudentAdmission`, stored under a fresh id with its batch's counter bumped, keeps the database valid. */
  lemma AdmittedStudentKeepsValid(batches: map<Id, Batch>, students: map<Id, Student>, marks: map<Id, Mark>, nextId: Id,
                                  req: StudentModel.StudentRequest)
    requires StoreValid(batches, students, marks, nextId)
    requires StudentAdmission(batches, students, req).Ok?
    ensures StoreValid(Enrollment.Bump(batches, req.batch, 1), students[nextId := StudentModel.FromRequest(req)], marks, nextId + 1)
  {
    InsertStudentKeepsValid(batches, students, marks, nextId, StudentModel.FromRequest(req));
  }

  class Store {
    var batches: map<Id, Batch>
    var students: map<Id, Student>
    var marks: map<Id, Mark>
    /** The next id the store hands out. */
    var nextId: Id

    ghost predicate Valid()
      reads this
    {
      StoreValid(batches, students, marks, nextId)
    }

    /** The enrollment-counter invariant over the current state. */
    predicate Consistent()
      reads this
    {
      Enrollment.CountersConsistent(batches, students)
    }

    /** An empty database. */
    constructor ()
      ensures Valid() && Consistent()
      ensures batches == map[] && students == map[] && marks == map[]
    {
      batches, students, marks, nextId := map[], map[], map[], 0;
    }

    // -------------------------------------------------------------- batches

    /** `POST /api/batches`. */
    method CreateBatch(req: BatchModel.BatchRequest) returns (r: Result<Id>)
      requires Valid()
      modifies this
      ensures Valid()
      ensures students == old(students) && marks == old(marks)
      ensures BatchAdmission(old(batches), req).Err? ==>
        r == Err(BatchAdmission(old(batches), req).failure) && batches == old(batches)
      ensures r.Err? ==> nextId == old(nextId)
      ensures BatchAdmission(old(batches), req).Ok? ==>
        r == Ok(old(nextId)) && r.value !in old(batches)
        && batches == old(batches)[r.value := BatchAdmission(old(batches), req).value]
      ensures old(Consistent()) ==> Consistent()
    {
      var admission := BatchAdmission(batches, req);
      if admission.Err? {
        return Err(admission.failure);
      }
      var b := admission.value;
      var id := nextId;
      InsertBatchKeepsValid(batches, students, marks, nextId, b);
      if Consistent() {
        Enrollment.NewBatchKeepsConsistent(batches, students, id, b);
      }
      batches := batches[id := b];
      nextId := nextId + 1;
      r := Ok(id);
    }

    /** `PUT /api/batches/:id`: the body's fields, `totalStudents` included, passed to the update. */
    method UpdateBatch(id: Id, p: BatchModel.BatchPatch) returns (r: Result<Batch>)
      requires Valid()
      modifies this
      ensures Valid()
      ensures students == old(students) && marks == old(marks) && nextId == old(nextId)
      ensures id !in old(batches) ==> r == Err(NotFound(BatchEntity))
      ensures id in old(batches) ==> (r == (
        var b := BatchModel.ApplyPatch(old(batches)[id], p);
        if !BatchModel.PatchValid(p) then Err(BadRequest(ValidationFailed))
        else if BatchClash(old(batches) - {id}, b) then Err(BadRequest(DuplicateKey))
        else Ok(b)))
      ensures r.Err? ==> batches == old(batches)
      ensures r.Ok? ==> batches == old(batches)[id := r.value]
      ensures old(Consistent()) && p.totalStudents.None? ==> Consistent()
    {
      if id !in batches {
        return Err(NotFound(BatchEntity));
      }
      if !BatchModel.PatchValid(p) {
        return Err(BadRequest(ValidationFailed));
      }
      var b := BatchModel.ApplyPatch(batches[id], p);
      if BatchClash(batches - {id}, b) {
        return Err(BadRequest(DuplicateKey));
      }
      InsertBatchKeepsUnique(batches, id, b);
      if Consistent() && p.totalStudents.None? {
        Enrollment.ReplaceBatchKeepsConsistent(batches, students, id, b);
      }
      batches := batches[id := b];
      r := Ok(b);
    }

    /** `DELETE /api/batches/:id`: refused while any student references the batch, whatever its counter says. */
    method DeleteBatch(id: Id) returns (r: Result<()>)
      requires Valid()
      modifies this
      ensures Valid()
      ensures students == old(students) && marks == old(marks) && nextId == old(nextId)
      ensures r == (
        if id !in old(batches) then Err(NotFound(BatchEntity))
        else if |Enrollment.Enrolled(old(students), id)| > 0 then
          Err(BadRequest(BatchHasStudents(|Enrollment.Enrolled(old(students), id)|)))
        else Ok(()))
      ensures r.Err? ==> batches == old(batches)
      ensures r.Ok? ==> batches == old(batches) - {id}
      ensures r.Ok? ==> forall s :: s in students ==> students[s].batch != id
      ensures old(Consistent()) ==> Consistent()
    {
      if id !in batches {
        return Err(NotFound(BatchEntity));
      }
      var studentCount := |Enrollment.Enrolled(students, id)|;
      if studentCount > 0 {
        return Err(BadRequest(BatchHasStudents(studentCount)));
      }
      forall s | s in students ensures students[s].batch != id {
        assert s !in Enrollment.Enrolled(students, id);
      }
      if Consistent() {
        Enrollment.RemoveBatchKeepsConsistent(batches, students, id);
      }
      batches := batches - {id};
      r := Ok(());
    }

    /** `PATCH /api/batches/:id/toggle-status`. */
    method ToggleBatch(id: Id) returns (r: Result<Batch>)
      requires Valid()
      modifies this
      ensures Valid()
      ensures students == old(students) && marks == old(marks) && nextId == old(nextId)
      ensures id !in old(batches) ==> r == Err(NotFound(BatchEntity)) && batches == old(batches)
      ensures id in old(batches) ==> r == Ok(BatchModel.Toggle(old(batches)[id])) && batches == old(batches)[id := r.value]
      ensures old(Consistent()) ==> Consistent()
    {
      if id !in batches {
        return Err(NotFound(BatchEntity));
      }
      var b := BatchModel.Toggle(batches[id]);
      assert BatchModel.FieldsValid(batches[id]);
      forall o | o in batches - {id}
        ensures batches[o].batchName != b.batchName && batches[o].batchCode != b.batchCode
      {
      }
      assert !BatchClash(batches - {id}, b);
      InsertBatchKeepsUnique(batches, id, b);
      if Consistent() {
        Enrollment.ToggleKeepsConsistent(batches, students, id);
      }
      batches := batches[id := b];
      r := Ok(b);
    }

    // -------------------------------------------------------------- students

    /** `POST /api/students`: the checks of `StudentAdmission`, then the write and the counter `$inc`. */
    method CreateStudent(req: StudentModel.StudentRequest) returns (r: Result<Id>)
      requires Valid()
      modifies this
      ensures Valid()
      ensures marks == old(marks)
      ensures StudentAdmission(old(batches), old(students), req).Err? ==>
        r == Err(StudentAdmission(old(batches), old(students), req).failure)
        && students == old(students) && batches == old(batches)
      ensures r.Err? ==> nextId == old(nextId)
      ensures StudentAdmission(old(batches), old(students), req).Ok? ==> r == Ok(old(nextId)) && r.value !in old(students)
      ensures r.Ok? ==> students == old(students)[r.value := StudentModel.FromRequest(req)]
      ensures r.Ok? ==> batches == Enrollment.Bump(old(batches), req.batch, 1)
      ensures old(Consistent()) ==> Consistent()
    {
      var admission := StudentAdmission(batches, students, req);
      if admission.Err? {
        return Err(admission.failure);
      }
      var s := StudentModel.FromRequest(req);
      var id := nextId;
      AdmittedStudentKeepsValid(batches, students, marks, nextId, req);
      if Consistent() {
        Enrollment.CreateKeepsConsistent(batches, students, id, s);
      }
      batches, students, nextId := Enrollment.Bump(batches, req.batch, 1), students[id := s], id + 1;
      r := Ok(id);
    }

    /**
     * `PUT /api/students/:id`: when the body names another batch, the
     * counters move first; the update is validated only afterwards.
     */
    method UpdateStudent(id: Id, p: StudentModel.StudentPatch) returns (r: Result<Student>)
      requires Valid()
      modifies this
      ensures Valid()
      ensures marks == old(marks)
      ensures id !in old(students) ==> r == Err(NotFound(StudentEntity)) && batches == old(batches)
      ensures id in old(students) ==>
        batches == Enrollment.MoveCounters(old(batches), old(students)[id].batch, p.batch)
      ensures id in old(students) ==> (r == (
        var s := StudentModel.ApplyPatch(old(students)[id], p);
        if !StudentModel.PatchValid(p) then Err(BadRequest(ValidationFailed))
        else if StudentClash(old(students) - {id}, s) then Err(BadRequest(DuplicateKey))
        else Ok(s)))
      ensures r.Err? ==> students == old(students)
      ensures r.Ok? ==> students == old(students)[id := r.value]
      ensures old(Consistent()) && r.Ok? ==> Consistent()
    {
      if id !in students {
        return Err(NotFound(StudentEntity));
      }
      var current := students[id];
      ghost var before := batches;
      ghost var wasConsistent := Consistent();
      if p.batch.Some? && p.batch.value != current.batch {
        batches := Enrollment.Bump(batches, current.batch, -1);
        batches := Enrollment.Bump(batches, p.batch.value, 1);
      }
      assert batches == Enrollment.MoveCounters(before, current.batch, p.batch);
      MoveCountersKeepsValid(before, students, marks, nextId, current.batch, p.batch);
      if !StudentModel.PatchValid(p) {
        return Err(BadRequest(ValidationFailed));
      }
      var s := StudentModel.ApplyPatch(current, p);
      if StudentClash(students - {id}, s) {
        return Err(BadRequest(DuplicateKey));
      }
      assert StudentModel.FieldsValid(students[id]);
      StudentModel.PatchKeepsValid(current, p);
      WriteStudentKeepsValid(before, students, marks, nextId, id, p.batch, s);
      if wasConsistent {
        Enrollment.UpdateKeepsConsistent(before, students, id, p.batch, s);
      }
      students := students[id := s];
      nextId := Max(nextId, s.batch + 1);
      r := Ok(s);
    }

    /** `DELETE /api/students/:id`: the student's marks go, its batch's counter drops, then the student goes. */
    method DeleteStudent(id: Id) returns (r: Result<()>)
      requires Valid()
      modifies this
      ensures Valid()
      ensures nextId == old(nextId)
      ensures id !in old(students) ==>
        r == Err(NotFound(StudentEntity)) && batches == old(batches) && students == old(students) && marks == old(marks)
      ensures id in old(students) ==> r == Ok(())
      ensures id in old(students) ==> marks == MarksWithout(old(marks), id)
      ensures id in old(students) ==> batches == Enrollment.Bump(old(batches), old(students)[id].batch, -1)
      ensures id in old(students) ==> students == old(students) - {id}
      ensures old(Consistent()) ==> Consistent()
    {
      if id !in students {
        return Err(NotFound(StudentEntity));
      }
      DeleteStudentKeepsValid(batches, students, marks, nextId, id);
      if Consistent() {
        Enrollment.DeleteKeepsConsistent(batches, students, id);
      }
      marks := MarksWithout(marks, id);
      batches := Enrollment.Bump(batches, students[id].batch, -1);
      students := students - {id};
      r := Ok(());
    }

    // -------------------------------------------------------------- marks

    /**
     * `POST /api/marks`: obtained against total, the student, the batch, the
     * student's membership in the batch, then the schema validators.
     */
    method CreateMark(req: MarkModel.MarkRequest) returns (r: Result<Id>)
      requires Valid()
      modifies this
      ensures Valid()
      ensures students == old(students) && batches == old(batches)
      ensures r == (
        if req.marksObtained > req.totalMarks then Err(BadRequest(ObtainedExceedsTotal))
        else if req.student !in old(students) then Err(NotFound(StudentEntity))
        else if req.batch !in old(batches) then Err(NotFound(BatchEntity))
        else if old(students)[req.student].batch != req.batch then Err(BadRequest(StudentNotInBatch))
        else if !MarkModel.RequestValid(req) then Err(BadRequest(ValidationFailed))
        else Ok(old(nextId)))
      ensures r.Err? ==> marks == old(marks) && nextId == old(nextId)
      ensures r.Ok? ==> r.value !in old(marks) && marks == old(marks)[r.value := MarkModel.FromRequest(req)]
      ensures old(Consistent()) ==> Consistent()
    {
      if req.marksObtained > req.totalMarks {
        return Err(BadRequest(ObtainedExceedsTotal));
      }
      if req.student !in students {
        return Err(NotFound(StudentEntity));
      }
      if req.batch !in batches {
        return Err(NotFound(BatchEntity));
      }
      if students[req.student].batch != req.batch {
        return Err(BadRequest(StudentNotInBatch));
      }
      if !MarkModel.RequestValid(req) {
        return Err(BadRequest(ValidationFailed));
      }
      var id := nextId;
      marks := marks[id := MarkModel.FromRequest(req)];
      nextId := nextId + 1;
      r := Ok(id);
    }

    /** `PUT /api/marks/:id`: the handler's own guard, then the validators of the supplied fields. */
    method UpdateMark(id: Id, p: MarkModel.MarkPatch) returns (r: Result<Mark>)
      requires Valid()
      modifies this
      ensures Valid()
      ensures students == old(students) && batches == old(batches)
      ensures r == (
        if id !in old(marks) then Err(NotFound(MarkEntity))
        else if MarkModel.PatchGuardRejects(p) then Err(BadRequest(ObtainedExceedsTotal))
        else if !MarkModel.PatchValid(p) then Err(BadRequest(ValidationFailed))
        else Ok(MarkModel.ApplyPatch(old(marks)[id], p)))
      ensures r.Err? ==> marks == old(marks)
      ensures r.Ok? ==> marks == old(marks)[id := r.value]
      ensures old(Consistent()) ==> Consistent()
    {
      if id !in marks {
        return Err(NotFound(MarkEntity));
      }
      if MarkModel.PatchGuardRejects(p) {
        return Err(BadRequest(ObtainedExceedsTotal));
      }
      if !MarkModel.PatchValid(p) {
        return Err(BadRequest(ValidationFailed));
      }
      var m := MarkModel.ApplyPatch(marks[id], p);
      marks := marks[id := m];
      nextId := Max(nextId, Max(m.student, m.batch) + 1);
      r := Ok(m);
    }

    /** `DELETE /api/marks/:id`. */
    method DeleteMark(id: Id) returns (r: Result<()>)
      requires Valid()
      modifies this
      ensures Valid()
      ensures students == old(students) && batches == old(batches) && nextId == old(nextId)
      ensures id !in old(marks) ==> r == Err(NotFound(MarkEntity)) && marks == old(marks)
      ensures id in old(marks) ==> r == Ok(()) && marks == old(marks) - {id}
      ensures old(Consistent()) ==> Consistent()
    {
      if id !in marks {
        return Err(NotFound(MarkEntity));
      }
      marks := marks - {id};
      r := Ok(());
    }
  }

  // ---------------------------------------------------------------- route-level properties

  /**
   * The route filters on `batchCode.toUpperCase()`, which the path's
   * `uppercase` and `trim` setters cast to the stored form: a stored code
   * equal to the request's stored form is found, whatever the request's
   * letter case and surrounding blanks.
   */
  lemma CodeCheckIgnoresCase(batches: map<Id, Batch>, id: Id, code: string)
    requires id in batches && batches[id].batchCode == BatchModel.StoredCode(code)
    ensures CodeTaken(batches, BatchModel.StoredCode(Text.ToUpper(code)))
  {
    BatchModel.StoredCodeIgnoresCase(code);
  }

  /**
   * After the email and enrollment checks nothing is left for the unique
   * indexes to catch: a create that passes them is never refused as a
   * duplicate key.
   */
  lemma AdmissionLeavesNoDuplicateKey(batches: map<Id, Batch>, students: map<Id, Student>, req: StudentModel.StudentRequest)
    ensures StudentAdmission(batches, students, req) != Err(BadRequest(DuplicateKey))
  {
    var x := StudentModel.FromRequest(req);
    if !EmailTaken(students, StudentModel.NormalizeEmail(req.email)) && !EnrollmentTaken(students, req.enrollmentNumber) {
      assert !StudentClash(students, x);
    }
  }

  /** A stored `a@b.co` makes the check refuse ` A@b.co `: the filter is trimmed and lower-cased first. */
  lemma PaddedEmailRefused(batches: map<Id, Batch>, students: map<Id, Student>, id: Id, req: StudentModel.StudentRequest)
    requires id in students && students[id].email == "a@b.co"
    requires req.email == " A@b.co "
    ensures StudentAdmission(batches, students, req) == Err(BadRequest(EmailExists))
  {
    PaddedEmailNormalizes();
    assert EmailTaken(students, StudentModel.NormalizeEmail(req.email));
  }

  lemma PaddedEmailNormalizes()
    ensures StudentModel.NormalizeEmail(" A@b.co ") == "a@b.co"
  {
    StudentModel.NormalizeEmailEitherOrder(" A@b.co ");
    PaddedEmailTrims();
    PaddedEmailLowers();
  }

  lemma PaddedEmailLowers()
    ensures Text.ToLower("A@b.co") == "a@b.co"
  {
    Text.ToLowerPointwise("A@b.co", "a@b.co");
  }

  lemma PaddedEmailTrims()
    ensures Text.Trim(" A@b.co ") == "A@b.co"
  {
    assert Text.ContentEnd(" A@b.co ") == 7 by {
      assert " A@b.co "[..7] == " A@b.co";
    }
    assert " A@b.co "[..7] == " A@b.co";
    assert Text.LeadingSpaces(" A@b.co") == 1 by { assert " A@b.co"[1..] == "A@b.co"; }
    assert " A@b.co"[1..] == "A@b.co";
  }

  /** Moving a student whose update is then refused leaves the counters shifted. */
  lemma RefusedMoveShiftsCounters(batches: map<Id, Batch>, students: map<Id, Student>, id: Id, p: StudentModel.StudentPatch)
    requires Enrollment.CountersConsistent(batches, students)
    requires id in students && students[id].batch in batches
    requires p.batch.Some? && p.batch.value != students[id].batch && !StudentModel.PatchValid(p)
    ensures !Enrollment.CountersConsistent(Enrollment.MoveCounters(batches, students[id].batch, p.batch), students)
  {
    Enrollment.FailedMoveLeavesCounterShort(batches, students, id, p.batch.value);
  }
}
