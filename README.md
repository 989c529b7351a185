# Learning management system: records, marks and their rules, in Dafny

This project models the business rules of a small learning-management
application in which batches (classes) hold students and students collect
marks. It covers:

- the three Mongoose schemas (`Batch`, `Student`, `Mark`) with their
  setters, validators, defaults and virtuals (percentage, grade, full name);
- the Express route handlers that create, update, toggle and delete batches,
  students and marks, modelled as methods of one `Store` class that holds the
  three collections as maps from id to record. Each handler runs as one
  sequential, atomic step and returns either a value or a 400/404 failure
  with its reason;
- the enrollment counter `Batch.totalStudents` kept by the student handlers,
  and the invariant it is meant to maintain: every batch's counter equals the
  number of students that reference the batch;
- the per-student totals and the statistics report of the marks routes, as
  loops proved against recursive specifications;
- on the client: the mark entry form (its state, change handler, displayed
  percentage and gated submit handler), the two JavaScript text-to-number
  conversions it relies on, and the filters of the marks, students and
  batches list pages.

Files: `prelude.dfy` (ids, dates, `Option`), `text.dfy` (ASCII case mapping,
`trim`, `includes`, string order), `seqs.dfy` (`filter`, `[...new Set(xs)]`),
`mark.dfy`, `student.dfy`, `batch.dfy` (the schemas), `enrollment.dfy` (the
counter invariant), `store.dfy` (the handlers), `statistics.dfy` (the marks
reports), `jsnumber.dfy` (`Number` and `parseFloat`), `markform.dfy` (the
form) and `lists.dfy` (the list filters).

Behaviour the model keeps as the code has it, though a reader might not
expect it:

- Deleting a batch that still has students answers 400 with the live count
  of its students. It does not answer 409 Conflict.
- `PUT /api/batches/:id` passes the whole body to the update, so a body can
  overwrite `totalStudents`. The counter invariant is proved only for
  updates that leave it alone (`Enrollment.CounterOverwriteBreaksConsistency`
  shows the other case).
- `PUT /api/students/:id` moves the counters before the update is validated.
  A refused update therefore leaves the counters shifted
  (`RecordStore.RefusedMoveShiftsCounters`).
- The same handler does not check that the new batch exists; `$inc` on a
  missing batch does nothing.
- `subjectMap` in the statistics handler is a plain object, so a subject
  named like a member every object inherits (`constructor`, `toString`,
  `__proto__` and the other `Object.prototype` names) already reads as
  truthy. Its marks never get an entry. They count in `totalExams` and the
  averages but in no subject of the breakdown
  (`Statistics.InheritedSubjectUncounted`).
- The mark form posts typed inputs as strings, and the create handler
  compares the two strings. 9 of 10 passes the form and is refused by the
  server (`MarkFormView.TypedMarksCompareAsText`).
- A submission the mark form skips (a blank or non-numeric marks input)
  leaves `loading` set.

Ids are natural numbers handed out by the store's allocator `nextId`. A
stored reference to a batch or student id raises the allocator past it, so a
fresh id is never one already mentioned.

## Model

| member | source | states |
|---|---|---|
| MarkModel.ParseExamType | Backend/models/Mark.js:32-36 | a string is accepted exactly when it is one of the six enum values, and it reads back as the type of that name |
| MarkModel.ExamTypeRoundTrip | Backend/models/Mark.js:32-36 | every exam type's name is in the enum and parses back to the same type |
| MarkModel.Percentage | Backend/models/Mark.js:52-54 | for a positive total, the percentage times the total is the obtained marks times 100 |
| MarkModel.PercentBetween | Backend/models/Mark.js:52-64 | a percentage of a positive total is non-negative exactly when the obtained marks are, and at most 100 exactly when they do not exceed the total |
| MarkModel.PercentageAtLeast | Backend/models/Mark.js:58-64 | a percentage reaches a threshold k exactly when obtained·100 ≥ k·total |
| MarkModel.ScaleStrict | Backend/models/Mark.js:58-64 | scaling by a positive factor preserves strict order both ways |
| MarkModel.MarkPercentage | Backend/models/Mark.js:20-54 | the percentage of a mark within the schema bounds is defined, never negative, and at most 100 exactly when obtained ≤ total |
| MarkModel.GradeFor | Backend/models/Mark.js:57-65 | A+ iff ≥ 90; A, B, C, D iff in the half-open bands [80,90), [70,80), [60,70), [50,60); F iff < 50 |
| MarkModel.GradeMonotone | Backend/models/Mark.js:58-64 | a higher percentage never yields a lower grade |
| MarkModel.MarkGrade | Backend/models/Mark.js:57-65 | each grade band restated on the stored numbers by cross-multiplication |
| MarkModel.GradeBoundaries | Backend/models/Mark.js:59-64 | 90 and 99.99 are A+, 89.99 is A, 50 is D, 49.99 is F |
| MarkModel.FortyFiveOfFifty | Backend/models/Mark.js:52-59 | 45 of 50 is within bounds, 90 percent and an A+ |
| MarkModel.ExamTypeOf | Backend/models/Mark.js:32-36 | a request without an exam type stores the default Assignment, one with an accepted type stores that type |
| MarkModel.FromRequest | Backend/models/Mark.js:15-44 | a stored mark passes the schema (bounds, trimmed non-empty subject) and keeps the request's references and numbers |
| MarkModel.ApplyPatch | Backend/routes/markRoutes.js:318-325 | a validated update keeps a persistable mark persistable; each supplied path replaces the stored one through its setter (subject and remarks trimmed, exam type parsed), each absent one stays |
| MarkModel.OneFieldUpdateSkipsGuard | Backend/routes/markRoutes.js:309-316 | an update carrying only `marksObtained` passes the handler's guard and the validators even when it exceeds the stored total |
| MarkModel.ZeroObtainedSkipsGuard | Backend/routes/markRoutes.js:309-316 | an obtained value of 0 is falsy, so the guard never rejects it |
| StudentModel.NormalizeEmail | Backend/models/Student.js:15-20 | a stored email has no upper-case letter and no blank at either end |
| StudentModel.NormalizeEmailEitherOrder | Backend/models/Student.js:19-20 | lower-casing then trimming equals trimming then lower-casing |
| StudentModel.NormalizeEmailIdempotent | Backend/models/Student.js:19-20 | normalising a stored email again changes nothing |
| StudentModel.RouteLowercaseRedundant | Backend/routes/studentRoutes.js:131 | the route's own `toLowerCase()` before the setters changes nothing that is stored |
| StudentModel.ScanDomainChars | Backend/models/Student.js:22 | an accepted domain consists of word characters and single separators, ends in a word character, and its last dot group has 2 or 3 characters |
| StudentModel.ScanLocalSplits | Backend/models/Student.js:22 | an accepted email has exactly one `@`, with a non-empty part before it and a non-empty domain after it |
| StudentModel.EmailShapeExample | Backend/models/Student.js:22 | `j.doe@ab.in` is accepted |
| StudentModel.FourLetterDomainRejected | Backend/models/Student.js:22 | `jo@m.info` is rejected: the last group may have only 2 or 3 characters |
| StudentModel.SeparatorRulesRejected | Backend/models/Student.js:22 | doubled separators and an empty local part are rejected |
| StudentModel.PhoneExamples | Backend/models/Student.js:26-36 | absent and empty phones pass; 10 digits starting 6 to 9 pass (7 and 8 too, unlike the message); other leading digits, a `+91` prefix or 9 digits fail |
| StudentModel.FromRequest | Backend/models/Student.js:5-57 | a created student stores the normalised email and trimmed names, keeps its batch and enrollment number, and is active |
| StudentModel.ApplyPatch | Backend/routes/studentRoutes.js:187-194 | supplied batch, email and enrollment number replace the stored ones (the email normalised); absent ones stay |
| StudentModel.ApplyPatchPaths | Backend/routes/studentRoutes.js:187-194 | every other path: a supplied value replaces the stored one through its setter (names, phone and address trimmed), an absent one stays |
| StudentModel.PatchKeepsValid | Backend/routes/studentRoutes.js:187-194 | an update that passes the validators of the paths it sets leaves a valid student valid |
| StudentModel.FullName | Backend/models/Student.js:65-67 | the full name is the first name, one space, then the last name |
| StudentModel.FullNameSplits | Backend/models/Student.js:65-67 | when the first name has no space, the first space of the full name sits right after it |
| BatchModel.StoredCode | Backend/models/Batch.js:11-17 | a stored code has no lower-case letter, no blank at either end, and is no longer than the input |
| BatchModel.StoredCodeIgnoresCase | Backend/models/Batch.js:15-16 | codes that differ only in letter case are stored alike |
| BatchModel.StoredCodeIdempotent | Backend/models/Batch.js:15-16 | a stored code needs no more normalising |
| BatchModel.FromRequest | Backend/routes/batchRoutes.js:89-95 | a created batch has a trimmed name, the stored form of the code, the given dates, `isActive` true and `totalStudents` 0 |
| BatchModel.EndBeforeStartAccepted | Backend/models/Batch.js:18-25 | a batch ending before it starts is accepted: the dates are not ordered |
| BatchModel.ApplyPatch | Backend/routes/batchRoutes.js:125-132 | an update that passes its validators keeps a batch valid; each supplied path, `totalStudents` included, replaces the stored one through its setter (name and description trimmed, code in its stored form), each absent one stays |
| BatchModel.Toggle | Backend/routes/batchRoutes.js:200-201 | toggling negates `isActive` and changes nothing else |
| BatchModel.ToggleTwice | Backend/routes/batchRoutes.js:200-201 | toggling twice restores the batch |
| Enrollment.Bump | Backend/routes/studentRoutes.js:140-142 | `$inc` changes only the named batch's counter, by the delta, and does nothing when the batch is missing |
| Enrollment.MoveCounters | Backend/routes/studentRoutes.js:175-185 | counters change only when the body names a batch other than the current one |
| Enrollment.EnrolledInsert | Backend/routes/studentRoutes.js:128-137 | a new student raises the live count of its own batch by one and of no other |
| Enrollment.EnrolledRemove | Backend/routes/studentRoutes.js:232 | a removed student lowers the live count of its own batch by one and of no other |
| Enrollment.CreateKeepsConsistent | Backend/routes/studentRoutes.js:128-142 | create followed by `$inc: 1` keeps every counter equal to its live count |
| Enrollment.DeleteKeepsConsistent | Backend/routes/studentRoutes.js:228-232 | `$inc: -1` followed by the delete keeps every counter equal to its live count |
| Enrollment.UpdateKeepsConsistent | Backend/routes/studentRoutes.js:175-194 | moving the counters and then writing the student keeps every counter right, whether or not the batch changes |
| Enrollment.FailedMoveLeavesCounterShort | Backend/routes/studentRoutes.js:176-194 | if the counters move and the write does not happen, the old batch's counter is one below its live count |
| Enrollment.NewBatchKeepsConsistent | Backend/models/Batch.js:34-37 | a new batch with counter 0 that no student references keeps the invariant |
| Enrollment.ReplaceBatchKeepsConsistent | Backend/routes/batchRoutes.js:125-132 | replacing a batch's other fields while keeping its counter keeps the invariant |
| Enrollment.CounterOverwriteBreaksConsistency | Backend/routes/batchRoutes.js:125-132 | an update body that sets `totalStudents` to anything but the live count breaks the invariant |
| Enrollment.RemoveBatchKeepsConsistent | Backend/routes/batchRoutes.js:171 | removing a batch keeps the other counters right |
| Enrollment.ToggleKeepsConsistent | Backend/routes/batchRoutes.js:200-201 | toggling a batch keeps the invariant |
| RecordStore.InsertBatchKeepsUnique | Backend/models/Batch.js:5-17 | a batch clashing with no other on name or code keeps both unique indexes |
| RecordStore.InsertStudentKeepsUnique | Backend/models/Student.js:15-46 | a student clashing with no other on email or enrollment number keeps both unique indexes |
| RecordStore.MarksWithout | Backend/routes/studentRoutes.js:225 | `deleteMany` keeps exactly the marks of other students, unchanged |
| RecordStore.ActiveQuery | Backend/routes/studentRoutes.js:19-21 | an absent `isActive` parameter filters nothing; a present one selects active records exactly when it is `true` |
| RecordStore.ActiveQueryOtherSpellings | Backend/routes/batchRoutes.js:14-16 | `TRUE`, `1`, the empty string and `false` all select inactive records |
| RecordStore.BumpKeepsBatchInvariants | Backend/routes/studentRoutes.js:140-142 | `$inc` keeps the batch indexes and validators |
| RecordStore.StudentsValidInsert | Backend/routes/studentRoutes.js:128-137 | writing a valid student keeps every stored student valid |
| RecordStore.StudentsValidRemove | Backend/routes/studentRoutes.js:232 | removing a student keeps the others valid and unique |
| RecordStore.InsertBatchKeepsValid | Backend/routes/batchRoutes.js:89-95 | a valid, non-clashing batch under a fresh id keeps the database valid |
| RecordStore.InsertStudentKeepsValid | Backend/routes/studentRoutes.js:128-142 | a valid, non-clashing student in an existing batch, with its counter bumped, keeps the database valid |
| RecordStore.MoveCountersKeepsBatchInvariants | Backend/routes/studentRoutes.js:175-185 | moving the counters keeps the batch indexes and validators |
| RecordStore.MoveCountersKeepsValid | Backend/routes/studentRoutes.js:175-185 | moving the counters alone, as a refused update leaves them, keeps the database valid |
| RecordStore.WriteStudentKeepsIds | Backend/routes/studentRoutes.js:187-194 | after a student is written, every id and reference stays below the raised allocator |
| RecordStore.WriteStudentKeepsValid | Backend/routes/studentRoutes.js:175-194 | moving the counters and writing a valid, non-clashing student keeps the database valid |
| RecordStore.DeleteStudentKeepsValid | Backend/routes/studentRoutes.js:225-232 | the mark cascade, the decrement and the delete keep the database valid |
| RecordStore.StudentAdmission | Backend/routes/studentRoutes.js:102-137 | admitted exactly when the email in its stored form (the setters cast the filter) and the enrollment number are free, the batch exists, and the stored document is valid and clashes with no index; a taken email is reported first, then a taken enrollment number, then the missing batch |
| RecordStore.AdmittedStudentKeepsValid | Backend/routes/studentRoutes.js:128-142 | an admitted student stored with its counter bumped keeps the database valid |
| RecordStore.BatchAdmission | Backend/routes/batchRoutes.js:78-95 | admitted exactly when the code in its stored form is free, the validators pass and no index clashes; a taken code is reported first, then a failed validator; an admitted batch is the valid stored document |
| RecordStore.Store.CreateBatch | Backend/routes/batchRoutes.js:76-109 | a refusal returns the failure of `BatchAdmission` and changes nothing, the id allocator included; a success stores the admitted batch under a fresh id and changes no other record; counters stay consistent |
| RecordStore.Store.UpdateBatch | Backend/routes/batchRoutes.js:114-146 | 404 for a missing batch, then validators and unique index; only a success writes the patched batch; consistency kept when the body leaves `totalStudents` alone |
| RecordStore.Store.DeleteBatch | Backend/routes/batchRoutes.js:151-184 | 404 for a missing batch; 400 with the live count while any student references it, whatever the counter says; otherwise exactly that batch goes and no student references it |
| RecordStore.Store.ToggleBatch | Backend/routes/batchRoutes.js:189-215 | 404 for a missing batch and nothing changes; otherwise the toggled batch replaces it |
| RecordStore.Store.CreateStudent | Backend/routes/studentRoutes.js:88-158 | a refusal returns the failure of `StudentAdmission` and changes nothing, the id allocator included; a success stores the student under a fresh id and bumps exactly its batch's counter; counters stay consistent |
| RecordStore.Store.UpdateStudent | Backend/routes/studentRoutes.js:163-208 | 404 for a missing student; otherwise the counters move first, then validators and unique indexes decide; only a success writes the student, and a success keeps the counters consistent |
| RecordStore.Store.DeleteStudent | Backend/routes/studentRoutes.js:213-245 | 404 for a missing student and nothing changes; otherwise its marks go, its batch's counter drops by one, the student goes, and the counters stay consistent |
| RecordStore.Store.CreateMark | Backend/routes/markRoutes.js:218-292 | reply in the handler's order: obtained > total, missing student, missing batch, student not in the batch, validators, else the new id; a rejection stores nothing and allocates no id |
| RecordStore.Store.UpdateMark | Backend/routes/markRoutes.js:297-341 | 404 for a missing mark, then the truthy-fields guard, then the supplied paths' validators; only a success writes the patched mark |
| RecordStore.Store.DeleteMark | Backend/routes/markRoutes.js:346-370 | 404 for a missing mark and nothing changes; otherwise exactly that mark goes |
| RecordStore.CodeCheckIgnoresCase | Backend/routes/batchRoutes.js:81-87 | a stored code equal to the request's stored form is found by the route's upper-cased filter, whatever the request's case and surrounding blanks |
| RecordStore.AdmissionLeavesNoDuplicateKey | Backend/routes/studentRoutes.js:102-137 | after the email and enrollment checks no create is refused as a duplicate key |
| RecordStore.PaddedEmailRefused | Backend/routes/studentRoutes.js:102-108 | a stored `a@b.co` makes the route refuse ` A@b.co ` as an existing email |
| RecordStore.RefusedMoveShiftsCounters | Backend/routes/studentRoutes.js:176-194 | a refused update that named another batch leaves the counters inconsistent |
| Statistics.PrefixInBounds | Backend/routes/markRoutes.js:92-117 | a prefix of in-bounds marks is in bounds |
| Statistics.SumsAppend | Backend/routes/markRoutes.js:20-23 | appending a mark adds its numbers to both sums |
| Statistics.MaxSumAtLeastCount | Backend/models/Mark.js:26-31 | each total is at least 1, so the total of n marks is at least n |
| Statistics.ObtainedSumAtMostMaxSum | Backend/routes/markRoutes.js:20-23 | when no mark exceeds its total, the obtained sum lies between 0 and the total sum |
| Statistics.TotalsOf | Backend/routes/markRoutes.js:17-26 | the totals are the two column sums; the overall percentage is their ratio ×100 when the total sum is positive, else 0 |
| Statistics.TotalsOfNone | Backend/routes/markRoutes.js:17-26 | no marks give all-zero totals |
| Statistics.TotalsPercentageBounded | Backend/routes/markRoutes.js:17-26 | for in-bounds marks none of which exceeds its total, the overall percentage lies in [0, 100] |
| Statistics.StudentTotals | Backend/routes/markRoutes.js:17-26 | the accumulating loop computes `TotalsOf` |
| Statistics.Percentages | Backend/routes/markRoutes.js:97-98 | one percentage per mark, in order |
| Statistics.Highest | Backend/routes/markRoutes.js:93-101 | the running maximum, started at 0, is at least every value |
| Statistics.Lowest | Backend/routes/markRoutes.js:94-102 | the running minimum, started at 100, is at most every value |
| Statistics.HighestAttained | Backend/routes/markRoutes.js:93-101 | the running maximum is one of the values or the starting 0 |
| Statistics.LowestAttained | Backend/routes/markRoutes.js:94-102 | the running minimum is one of the values or the starting 100 |
| Statistics.FoldsAppend | Backend/routes/markRoutes.js:92-102 | one loop step updates the sum, maximum and minimum as the handler does |
| Statistics.SumBetween | Backend/routes/markRoutes.js:128 | a sum of n values between lo and hi lies between n·lo and n·hi |
| Statistics.DivideBetween | Backend/routes/markRoutes.js:128 | dividing by a positive count keeps those bounds |
| Statistics.AverageBetween | Backend/routes/markRoutes.js:128 | the mean of a non-empty sequence lies between its running minimum and maximum |
| Statistics.SubjectColumn | Backend/routes/markRoutes.js:105 | one subject per mark, in order |
| Statistics.KeyColumn | Backend/routes/markRoutes.js:105-110 | the subjects of the marks whose subject is not inherited; one per mark when none is |
| Statistics.Subjects | Backend/routes/markRoutes.js:105-110 | the subject map's own keys: exactly the marks' subjects that a plain object does not inherit |
| Statistics.SubjectsOnce | Backend/routes/markRoutes.js:105-110 | no subject is listed twice, as an object has each key once |
| Statistics.SubjectsAreTheMarksSubjects | Backend/routes/markRoutes.js:105-110 | a subject is listed exactly when it is not inherited and some mark carries it |
| Statistics.SubjectsAppend | Backend/routes/markRoutes.js:105-110 | a mark of a new own subject appends it at its first mark; a known or inherited subject changes nothing |
| Statistics.SubjectsKeep | Backend/routes/markRoutes.js:105-110 | a mark of an inherited or already listed subject leaves the key list as it was |
| Statistics.SubjectsGrow | Backend/routes/markRoutes.js:105-110 | a mark of an own subject not yet listed appends that subject |
| Statistics.OfSubject | Backend/routes/markRoutes.js:105-116 | the marks of one subject: all carry it, and there are none exactly when no mark does |
| Statistics.OfSubjectAppend | Backend/routes/markRoutes.js:105-116 | appending a mark extends its own subject's group only |
| Statistics.TallyOf | Backend/routes/markRoutes.js:105-116 | a subject's tally holds the sums over its marks and their count; a listed subject has at least one exam and a total of at least 1 |
| Statistics.TallyAppend | Backend/routes/markRoutes.js:114-116 | one loop step adds the mark to its own subject's tally and leaves the others |
| Statistics.StepStart | Backend/routes/markRoutes.js:105-112 | for an own subject, the tally a loop step starts from, an existing entry or a fresh empty one, is the tally of the marks seen so far |
| Statistics.StepTallies | Backend/routes/markRoutes.js:114-116 | after a loop step every entry of the subject map is the tally of the marks seen |
| Statistics.StepSkips | Backend/routes/markRoutes.js:114-116 | a mark of an inherited subject leaves every own tally as it was |
| Statistics.Perform | Backend/routes/markRoutes.js:119-122 | a subject's percentage is the ratio of its sums ×100, not a mean of percentages |
| Statistics.Breakdown | Backend/routes/markRoutes.js:119-122 | the map over the tallies yields one performance per subject, in order |
| Statistics.BreakdownAppend | Backend/routes/markRoutes.js:119-122 | the breakdown of one more subject appends its performance |
| Statistics.BreakdownStep | Backend/routes/markRoutes.js:119-122 | mapping the next subject of the key order appends its performance to the breakdown |
| Statistics.SkipStep | Backend/routes/markRoutes.js:105-116 | a loop step on a mark of an inherited subject keeps the map and its key order matching the marks seen |
| Statistics.KeysKeep | Backend/routes/markRoutes.js:114-116 | updating the entry of a subject already in the map keeps its keys those of the key order |
| Statistics.KeysGrow | Backend/routes/markRoutes.js:105-112 | creating the entry of a new subject and appending it to the key order keeps the two matched |
| Statistics.SeenStep | Backend/routes/markRoutes.js:105-116 | a loop step on a mark of an own subject already in the map adds the mark to its entry and keeps the map equal to the tallies of the marks seen, the key order unchanged |
| Statistics.FirstStep | Backend/routes/markRoutes.js:105-116 | a loop step on the first mark of an own subject starts its entry from an empty tally, appends the subject to the key order, and keeps the map equal to the tallies of the marks seen |
| Statistics.Record | Backend/routes/markRoutes.js:105-116 | the subject part of one loop step keeps the map equal to the tallies of the marks seen, its keys the own subjects in first-seen order |
| Statistics.StatisticsOf | Backend/routes/markRoutes.js:73-141 | the exam count is the number of marks; no marks give the all-zero report; otherwise lowest ≤ average ≤ highest and every mark's percentage lies between lowest and highest; one breakdown entry per own subject |
| Statistics.SubjectWise | Backend/routes/markRoutes.js:119-122 | the loop over the subject map produces the breakdown |
| Statistics.ComputeStatistics | Backend/routes/markRoutes.js:73-141 | the handler's loop and report equal `StatisticsOf` |
| Statistics.Names | Backend/routes/markRoutes.js:119-122 | the subjects of a breakdown, in order |
| Statistics.BreakdownListsEachSubjectOnce | Backend/routes/markRoutes.js:105-122 | the breakdown lists every non-inherited subject that has a mark, each once, and no other |
| Statistics.CountSumAppendMark | Backend/routes/markRoutes.js:114-116 | appending a mark raises the per-subject counts by one exactly when its subject is listed |
| Statistics.CountSumAppendSubject | Backend/routes/markRoutes.js:114-116 | listing one more subject adds its number of marks |
| Statistics.CountSumCoversMarks | Backend/routes/markRoutes.js:105-116 | over all own subjects, the per-subject counts add up to the number of marks of those subjects |
| Statistics.BreakdownCounts | Backend/routes/markRoutes.js:119-122 | the breakdown's exam counts are the per-subject counts |
| Statistics.ExamCountsAddUp | Backend/routes/markRoutes.js:116-127 | the subjects' exam counts add up to the number of marks of own subjects, and so to `totalExams` when no subject is inherited |
| Statistics.InheritedSubjectUncounted | Backend/routes/markRoutes.js:95-127 | one mark in the subject `constructor` gives one exam and an empty breakdown |
| Statistics.WeightedExampleAverage | Backend/routes/markRoutes.js:98-128 | 10/10 and 0/90, in any one subject, have percentages summing to 100 |
| Statistics.WeightedExampleSubjects | Backend/routes/markRoutes.js:105-110 | when their subject is not inherited, it is the one key and both marks fall in it |
| Statistics.WeightedExampleSums | Backend/routes/markRoutes.js:114-116 | their sums are 10 of 100 |
| Statistics.WeightedExampleTally | Backend/routes/markRoutes.js:105-116 | that subject's tally is 10 of 100 over 2 exams |
| Statistics.SubjectPercentageIsWeighted | Backend/routes/markRoutes.js:119-130 | the average percentage is 50 while the subject percentage is 10 |
| Statistics.SingleSubjectStatistics | Backend/routes/markRoutes.js:119-130 | when all own subjects are one subject, the average is the mean of the percentages and the breakdown is that subject's one performance |
| JsNumber.DigitsBelowPow10 | Frontend/src/components/Marks/MarkForm.jsx:69-70 | k digits are worth less than 10^k |
| JsNumber.PrefixLength | Frontend/src/components/Marks/MarkForm.jsx:106 | the longest prefix that is a decimal literal: it is one, and no longer prefix is |
| JsNumber.ParseFloat | Frontend/src/components/Marks/MarkForm.jsx:106 | `parseFloat` yields a number exactly when some prefix after the leading blanks is a decimal literal |
| JsNumber.DecimalSign | Frontend/src/components/Marks/MarkForm.jsx:69-70 | a decimal literal is negative only when it starts with a minus sign |
| JsNumber.UnsignedBetweenWholes | Frontend/src/components/Marks/MarkForm.jsx:69-70 | the fraction part of a literal never reaches the next whole number |
| JsNumber.ParseFloatAgreesWithNumber | Frontend/src/components/Marks/MarkForm.jsx:69-106 | on a trimmed decimal literal, `parseFloat` and `Number` give the same value |
| JsNumber.WholeNumberExample | Frontend/src/components/Marks/MarkForm.jsx:69 | `Number("45")` is 45 |
| JsNumber.PaddedFractionExample | Frontend/src/components/Marks/MarkForm.jsx:66-69 | `Number(" 4.5 ")` is 4.5 |
| JsNumber.LoneSignExample | Frontend/src/components/Marks/MarkForm.jsx:69-73 | `Number("-")` is NaN |
| JsNumber.ZeroExample | Frontend/src/components/Marks/MarkForm.jsx:105-107 | `parseFloat("0")` is 0 |
| JsNumber.TrailingLetterExample | Frontend/src/components/Marks/MarkForm.jsx:69-106 | `Number("4a")` is NaN while `parseFloat("4a")` is 4 |
| MarkFormView.Changed | Frontend/src/components/Marks/MarkForm.jsx:43-59 | the named input takes the typed value; choosing a batch clears the student; every other input keeps its value |
| MarkFormView.ChangeOverwrites | Frontend/src/components/Marks/MarkForm.jsx:43-59 | typing twice into one input leaves only the second value |
| MarkFormView.BatchChangeClearsStudent | Frontend/src/components/Marks/MarkForm.jsx:47-52 | after a batch change no student is selected, and choosing a student afterwards keeps the batch |
| MarkFormView.DatePart | Frontend/src/components/Marks/MarkForm.jsx:28 | `split('T')[0]` is the prefix before the first `T`, or all of the text |
| MarkFormView.DatePartOfTimestamp | Frontend/src/components/Marks/MarkForm.jsx:28 | the date of an ISO timestamp is its first ten characters |
| MarkFormView.DatePartIdempotent | Frontend/src/components/Marks/MarkForm.jsx:28 | cutting a date part again changes nothing |
| MarkFormView.FilteredStudents | Frontend/src/components/Marks/MarkForm.jsx:34-41 | all students while no batch is chosen; otherwise exactly the students of that batch, each with its multiplicity, in order |
| MarkFormView.PercentShown | Frontend/src/components/Marks/MarkForm.jsx:105-107 | 0 while either input is falsy; once both are truthy, NaN/Infinity exactly when either does not parse or the parsed total is 0 (a typed `"0"` is truthy); a shown percentage times the parsed total is the parsed obtained marks ×100 |
| MarkFormView.TypedZeroTotalNotFinite | Frontend/src/components/Marks/MarkForm.jsx:105-107 | a typed total of `"0"` is truthy and shows NaN or Infinity, never a percentage |
| MarkFormView.PercentShownMatchesVirtual | Frontend/src/components/Marks/MarkForm.jsx:105-107 | when both inputs read as numbers and the total is positive, the form shows the schema's percentage of them |
| MarkFormView.EmptyTextParsesToNothing | Frontend/src/components/Marks/MarkForm.jsx:106 | `parseFloat("")` is NaN |
| MarkFormView.SubmitCheck | Frontend/src/components/Marks/MarkForm.jsx:66-83 | skipped exactly when an input is blank or not a number; a passed check has obtained ≤ total, a failed one obtained > total |
| MarkFormView.LoadedMarksGuardAgrees | Backend/routes/markRoutes.js:231-237 | with both inputs still loaded numbers, the server's guard refuses exactly what the form's check stops |
| MarkFormView.TypedMarksCompareAsText | Backend/routes/markRoutes.js:231-237 | typed 9 of 10 passes the form's check and is refused by the server, which compares the two strings |
| Text.StringLessAsymmetric | Backend/routes/markRoutes.js:232 | the string order `>` uses is strict: never both ways, never a string against itself |
| MarkFormView.EditedMarkCheck | Frontend/src/components/Marks/MarkForm.jsx:19-83 | a mark opened for editing passes the checks exactly when its obtained marks do not exceed its total |
| MarkFormView.FormSendsOutOfRangeMarks | Frontend/src/components/Marks/MarkForm.jsx:79-83 | 150 of 200 passes the form although the schema rejects 150 |
| MarkFormView.BlankObtainedSkips | Frontend/src/components/Marks/MarkForm.jsx:73-76 | a blank obtained input stops the submission whatever the total |
| MarkFormView.FailureMessage | Frontend/src/components/Marks/MarkForm.jsx:99 | the server's message when it sent a non-empty one, else the fixed fallback |
| MarkFormView.MarkForm.constructor | Frontend/src/components/Marks/MarkForm.jsx:5-16 | blank inputs, exam type Assignment, not loading, no error |
| MarkFormView.MarkForm.LoadMark | Frontend/src/components/Marks/MarkForm.jsx:19-32 | the edit effect loads the mark's fields, its numbers as numbers and absent remarks as blank |
| MarkFormView.MarkForm.HandleChange | Frontend/src/components/Marks/MarkForm.jsx:43-59 | the form data becomes `Changed` of the old data |
| MarkFormView.MarkForm.HandleSubmit | Frontend/src/components/Marks/MarkForm.jsx:61-103 | a skipped check sends nothing, clears the error and leaves `loading` set; obtained > total sends nothing and shows the message; otherwise it updates when editing and creates otherwise, and the outcome decides success or the error shown |
| ListFilters.OccurrenceIsMentioned | Frontend/src/components/Students/StudentList.jsx:72-76 | a term that occurs in a field is found whatever the case |
| ListFilters.MentionsIgnoresCase | Frontend/src/components/Marks/MarkList.jsx:85 | upper- or lower-casing the term does not change the match |
| ListFilters.EmptyTermMentioned | Frontend/src/components/Students/StudentList.jsx:72-76 | the empty term matches every field |
| ListFilters.LowerSlice | Frontend/src/components/Marks/MarkList.jsx:85 | lower-casing commutes with slicing |
| ListFilters.FilteredMarks | Frontend/src/components/Marks/MarkList.jsx:82-89 | exactly the marks meeting all four criteria, each kept as many times as it occurs in the table, as a subsequence of the table |
| ListFilters.RepeatedRowsKept | Frontend/src/components/Marks/MarkList.jsx:82-89 | two equal matching rows are both listed, as `marks.filter` lists them |
| ListFilters.NoMarkFiltersListAll | Frontend/src/components/Marks/MarkList.jsx:83-86 | with every criterion empty, all marks are listed in order |
| ListFilters.SubjectFilterFindsOccurrence | Frontend/src/components/Marks/MarkList.jsx:85 | a mark whose subject contains the typed text is listed |
| ListFilters.SubjectColumn | Frontend/src/components/Marks/MarkList.jsx:92 | one subject per mark, in order |
| ListFilters.UniqueSubjects | Frontend/src/components/Marks/MarkList.jsx:92 | no duplicates, and exactly the subjects of the marks |
| ListFilters.UniqueSubjectsInFirstOccurrenceOrder | Frontend/src/components/Marks/MarkList.jsx:92 | the subjects come in the order of their first marks |
| ListFilters.ExamTypeOptionsMatchSchema | Frontend/src/components/Marks/MarkList.jsx:93 | the offered exam types are the schema's enum, in order |
| ListFilters.FilteredStudents | Frontend/src/components/Students/StudentList.jsx:71-86 | exactly the students meeting search, batch and status, each with its multiplicity, as a subsequence |
| ListFilters.InitialStudentFiltersListAll | Frontend/src/components/Students/StudentList.jsx:71-86 | the initial criteria list every student |
| ListFilters.StudentStatusViewsPartition | Frontend/src/components/Students/StudentList.jsx:80-83 | each student under `all` is under exactly one of `active` and `inactive` |
| ListFilters.UnknownStatusListsNoStudent | Frontend/src/components/Students/StudentList.jsx:80-83 | a status value other than the three options lists no one |
| ListFilters.FilteredBatches | Frontend/src/components/Batches/BatchList.jsx:68-79 | exactly the batches whose name or code contains the term and whose status matches, each with its multiplicity, as a subsequence |
| ListFilters.InitialBatchFiltersListAll | Frontend/src/components/Batches/BatchList.jsx:68-79 | the empty search with `all` lists every batch |
| ListFilters.BatchCodeSearchIgnoresCase | Frontend/src/components/Batches/BatchList.jsx:69-71 | a stored upper-case code is found by its lower-case spelling |
| ListFilters.BatchStatusViewsPartition | Frontend/src/components/Batches/BatchList.jsx:73-76 | each batch under `all` is under exactly one of `active` and `inactive` |

## Left out

- HTTP transport: JSON envelopes, status codes as numbers, messages of 400/404 replies, and the 500 replies of the `catch` blocks. Handlers return a `Result` whose failure carries the reason or the missing entity.
- The read-only handlers (`GET` of lists, of one record, of a batch's students or marks, and the marks search) are left out. Their `populate`, `sort` and `$regex` queries belong to the database. The `isActive` query parsing they share is modelled (`RecordStore.ActiveQuery`).
- Authentication and the server set-up (`Backend/server.js` is not part of this model beyond the empty database the store starts from).
- Concurrency: handlers are sequential and atomic. A partial failure between the counter `$inc` and the student write is not modelled.
- Request bodies whose fields are missing or of the wrong type are outside the model: requests are datatypes with the record's types, and `Option` marks the fields a body may leave out.
- ObjectId casting: ids are natural numbers. A malformed id, which Mongoose answers with an error, is not modelled.
- Numbers are exact reals, with no IEEE rounding; `toFixed(2)` formatting of percentages is left out.
- Text case mapping is ASCII only: `toLowerCase`/`toUpperCase` of non-ASCII letters is not modelled. `trim` uses the full ECMAScript blank set.
- StudentModel.EmailShape: the backtracking email regex is modelled by a left-to-right scanner over its accepted shape, without a regex engine.
- JsNumber.Number: covers decimal notation only. Hexadecimal, exponent notation and `Infinity` are not modelled. A loaded number's `toString()` is taken to read back as itself.
- JsNumber.ParseFloat: reads decimal prefixes only. `parseFloat("1e2")` is 100 and `parseFloat("Infinity")` is Infinity in JavaScript; the model gives 1 and NaN.
- Statistics: `Object.values` lists integer-like keys before the others; the model uses insertion order for every key.
- Statistics.Record: the marks of an inherited subject are added onto the inherited member (for `__proto__`, onto `Object.prototype` itself); the model drops those writes, which reach no entry of the breakdown.
- Dates are plain integers; date parsing is left out, and the form's `examDate` is a string cut at its first `T`.
- RecordStore.Store.CreateMark: takes a body of numbers. The form posts typed inputs as strings, so the handler's `marksObtained > totalMarks` compares strings; the model states that comparison on the form's values (`MarkFormView.ServerGuardRejects`) but not inside the handler.
- RecordStore.Store.UpdateMark: takes a body of numbers. On typed inputs its guard compares strings, and the string `"0"` is truthy, so the guard runs on a body it would skip for the number 0.
- ListFilters.FilteredStudents: a student whose batch was deleted populates to `null`, so once a batch filter is chosen `student.batch._id` throws; the model reads the stored id and keeps the row.
- ListFilters.FilteredMarks: a mark whose student or batch was deleted populates to `null`, so once a student or batch filter is chosen `mark.student._id` or `mark.batch._id` throws; the model reads the stored ids.
- MarkFormView.FilteredStudents: likewise, once a batch is chosen, a student whose batch was deleted makes `s.batch._id` throw; the model reads the stored id.
- Populated references in the form and the lists (`mark.student._id || mark.student`, `s.batch._id`) are modelled as the referenced id.
- Display-only components (dashboard, details pages, the student and batch forms) and the list pages' fetching and modals are left out.
