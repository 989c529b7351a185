/**
 * The `totalStudents` counter that `Backend/routes/studentRoutes.js` keeps on
 * every batch, and the invariant it is meant to maintain: each batch's counter
 * equals the number of students that reference the batch.
 */
module Enrollment {
  import opened Prelude
  import opened BatchModel
  import opened StudentModel

  /** The students whose `batch` is `b`: what `Student.countDocuments({ batch: b })` counts. */
  function Enrolled(students: map<Id, Student>, b: Id): set<Id>
  {
    set id | id in students && students[id].batch == b
  }

  /** Every existing batch's counter equals the number of students referencing it. */
  predicate CountersConsistent(batches: map<Id, Batch>, students: map<Id, Student>)
  {
    forall b :: b in batches ==> batches[b].totalStudents == |Enrolled(students, b)|
  }

  /** `$inc: { totalStudents: delta }` on batch `b`: a batch that does not exist is left alone. */
  function Bump(batches: map<Id, Batch>, b: Id, delta: int): (r: map<Id, Batch>)
    ensures r.Keys == batches.Keys
    ensures forall x :: x in batches && x != b ==> r[x] == batches[x]
    ensures b in batches ==> r[b] == batches[b].(totalStudents := batches[b].totalStudents + delta)
  {
    if b in batches then batches[b := batches[b].(totalStudents := batches[b].totalStudents + delta)] else batches
  }

  /**
   * What the update handler does to the counters before it writes the student:
   * when the body names a batch other than the current one, the old batch
   * loses one and the named batch gains one.
   */
  function MoveCounters(batches: map<Id, Batch>, from: Id, to: Option<Id>): (r: map<Id, Batch>)
    ensures r.Keys == batches.Keys
    ensures (to.None? || to.value == from) ==> r == batches
  {
    if to.Some? && to.value != from then Bump(Bump(batches, from, -1), to.value, 1) else batches
  }

  lemma EnrolledInsert(students: map<Id, Student>, id: Id, s: Student, b: Id)
    requires id !in students
    ensures Enrolled(students[id := s], b) == if s.batch == b then Enrolled(students, b) + {id} else Enrolled(students, b)
    ensures |Enrolled(students[id := s], b)| == |Enrolled(students, b)| + if s.batch == b then 1 else 0
  {
    assert id !in Enrolled(students, b);
  }

  lemma EnrolledRemove(students: map<Id, Student>, id: Id, b: Id)
    requires id in students
    ensures Enrolled(students - {id}, b) == if students[id].batch == b then Enrolled(students, b) - {id} else Enrolled(students, b)
    ensures |Enrolled(students - {id}, b)| == |Enrolled(students, b)| - if students[id].batch == b then 1 else 0
  {
  }

  /** A student created in an existing batch, followed by `$inc` on that batch, keeps every counter right. */
  lemma CreateKeepsConsistent(batches: map<Id, Batch>, students: map<Id, Student>, id: Id, s: Student)
    requires CountersConsistent(batches, students)
    requires id !in students
    ensures CountersConsistent(Bump(batches, s.batch, 1), students[id := s])
  {
    forall b | b in batches
      ensures Bump(batches, s.batch, 1)[b].totalStudents == |Enrolled(students[id := s], b)|
    {
      EnrolledInsert(students, id, s, b);
    }
  }

  /** Deleting a student after decrementing its batch's counter keeps every counter right. */
  lemma DeleteKeepsConsistent(batches: map<Id, Batch>, students: map<Id, Student>, id: Id)
    requires CountersConsistent(batches, students)
    requires id in students
    ensures CountersConsistent(Bump(batches, students[id].batch, -1), students - {id})
  {
    forall b | b in batches
      ensures Bump(batches, students[id].batch, -1)[b].totalStudents == |Enrolled(students - {id}, b)|
    {
      EnrolledRemove(students, id, b);
    }
  }

  /**
   * Moving the counters and then writing the updated student keeps every
   * counter right, whether or not the batch changes and whether or not the
   * named batch exists.
   */
  lemma UpdateKeepsConsistent(batches: map<Id, Batch>, students: map<Id, Student>, id: Id, to: Option<Id>, s: Student)
    requires CountersConsistent(batches, students)
    requires id in students
    requires s.batch == if to.Some? then to.value else students[id].batch
    ensures CountersConsistent(MoveCounters(batches, students[id].batch, to), students[id := s])
  {
    var from := students[id].batch;
    var rest := students - {id};
    assert students[id := s] == rest[id := s];
    forall b | b in batches
      ensures MoveCounters(batches, from, to)[b].totalStudents == |Enrolled(students[id := s], b)|
    {
      EnrolledRemove(students, id, b);
      EnrolledInsert(rest, id, s, b);
    }
  }

  /**
   * The counters are moved before the update is validated: when the update is
   * then refused, the student stays where it was and the old batch's counter
   * is one short.
   */
  lemma FailedMoveLeavesCounterShort(batches: map<Id, Batch>, students: map<Id, Student>, id: Id, to: Id)
    requires CountersConsistent(batches, students)
    requires id in students && students[id].batch in batches && to != students[id].batch
    ensures var from := students[id].batch;
      MoveCounters(batches, from, Some(to))[from].totalStudents == |Enrolled(students, from)| - 1
    ensures !CountersConsistent(MoveCounters(batches, students[id].batch, Some(to)), students)
  {
  }

  /** A fresh batch with a zero counter, whose id no student references, keeps every counter right. */
  lemma NewBatchKeepsConsistent(batches: map<Id, Batch>, students: map<Id, Student>, id: Id, b: Batch)
    requires CountersConsistent(batches, students)
    requires b.totalStudents == 0
    requires forall x :: x in students ==> students[x].batch != id
    ensures CountersConsistent(batches[id := b], students)
  {
    assert Enrolled(students, id) == {};
  }

  /** Replacing a batch's other fields while keeping its counter keeps every counter right. */
  lemma ReplaceBatchKeepsConsistent(batches: map<Id, Batch>, students: map<Id, Student>, id: Id, b: Batch)
    requires CountersConsistent(batches, students)
    requires id in batches && b.totalStudents == batches[id].totalStudents
    ensures CountersConsistent(batches[id := b], students)
  {
  }

  /** An update body that sets `totalStudents` to anything but the live count breaks the invariant. */
  lemma CounterOverwriteBreaksConsistency(batches: map<Id, Batch>, students: map<Id, Student>, id: Id, b: Batch)
    requires id in batches && b.totalStudents != |Enrolled(students, id)|
    ensures !CountersConsistent(batches[id := b], students)
  {
  }

  /** Removing a batch keeps the counters of the others right. */
  lemma RemoveBatchKeepsConsistent(batches: map<Id, Batch>, students: map<Id, Student>, id: Id)
    requires CountersConsistent(batches, students)
    ensures CountersConsistent(batches - {id}, students)
  {
  }

  /** Toggling a batch's status leaves its counter and the students alone. */
  lemma ToggleKeepsConsistent(batches: map<Id, Batch>, students: map<Id, Student>, id: Id)
    requires CountersConsistent(batches, students)
    requires id in batches
    ensures CountersConsistent(batches[id := Toggle(batches[id])], students)
  {
  }
}
