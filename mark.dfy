/**
 * The Mark record of `Backend/models/Mark.js`: its fields and their bounds,
 * the exam-type enumeration, and the two virtuals `percentage` and `grade`.
 */
module MarkModel {
  import opened Prelude
  import Text

  datatype ExamType = Quiz | Assignment | Midterm | Final | Project | Other

  /** The `enum` of the `examType` path, in schema order. */
  const ExamTypeNames: seq<string> := ["Quiz", "Assignment", "Midterm", "Final", "Project", "Other"]

  /** The schema default of `examType`. */
  const DefaultExamType: ExamType := Assignment

  function ExamTypeName(t: ExamType): string
  {
    match t
    case Quiz => "Quiz"
    case Assignment => "Assignment"
    case Midterm => "Midterm"
    case Final => "Final"
    case Project => "Project"
    case Other => "Other"
  }

  /** The enum validator: a string names an exam type exactly when it is one of the enum values. */
  function ParseExamType(name: string): (t: Option<ExamType>)
    ensures t.Some? <==> name in ExamTypeNames
    ensures t.Some? ==> ExamTypeName(t.value) == name
  {
    if name == "Quiz" then Some(Quiz)
    else if name == "Assignment" then Some(Assignment)
    else if name == "Midterm" then Some(Midterm)
    else if name == "Final" then Some(Final)
    else if name == "Project" then Some(Project)
    else if name == "Other" then Some(Other)
    else None
  }

  /** Every exam type has a name in the enum, and that name reads back as the same exam type. */
  lemma ExamTypeRoundTrip(t: ExamType)
    ensures ExamTypeName(t) in ExamTypeNames
    ensures ParseExamType(ExamTypeName(t)) == Some(t)
  {
  }

  /** A stored mark. `marksObtained` and `totalMarks` are JavaScript numbers, modelled exactly. */
  datatype Mark = Mark(
    student: Id,
    batch: Id,
    subject: string,
    marksObtained: real,
    totalMarks: real,
    examType: ExamType,
    examDate: Date,
    remarks: Option<string>)

  /** `marksObtained`: `min: 0`, `max: 100`. */
  predicate ObtainedInRange(x: real) { 0.0 <= x <= 100.0 }

  /** `totalMarks`: `min: 1`, `max: 100`. */
  predicate TotalInRange(x: real) { 1.0 <= x <= 100.0 }

  predicate InBounds(m: Mark)
  {
    ObtainedInRange(m.marksObtained) && TotalInRange(m.totalMarks)
  }

  /** What the schema guarantees of every persisted mark: the bounds and a trimmed, non-empty subject. */
  predicate Persistable(m: Mark)
  {
    InBounds(m) && m.subject != "" && Text.IsTrimmed(m.subject)
  }

  /** `obtained / total * 100`, the percentage of one mark and of a subject's summed marks. */
  function Percentage(obtained: real, total: real): (p: real)
    requires total > 0.0
    ensures p * total == obtained * 100.0
  {
    obtained / total * 100.0
  }

  /** Scaling by a positive factor keeps a strict order. */
  lemma ScaleStrict(a: real, b: real, t: real)
    requires t > 0.0
    ensures a < b <==> a * t < b * t
  {
    if a < b {
      assert (b - a) * t > 0.0;
    } else {
      assert (a - b) * t >= 0.0;
    }
  }

  /**
   * Any `p` with `p * total == obtained * 100` for a positive total is
   * non-negative exactly when `obtained` is, and at most 100 exactly when
   * `obtained` is at most the total.
   */
  lemma PercentBetween(p: real, obtained: real, total: real)
    requires total > 0.0 && p * total == obtained * 100.0
    ensures 0.0 <= p <==> 0.0 <= obtained
    ensures p <= 100.0 <==> obtained <= total
  {
    ScaleStrict(p, 0.0, total);
    ScaleStrict(100.0, p, total);
  }

  /** A percentage reaches a threshold `k` exactly when `obtained * 100 >= k * total`. */
  lemma PercentageAtLeast(obtained: real, total: real, k: real)
    requires total > 0.0
    ensures Percentage(obtained, total) >= k <==> obtained * 100.0 >= k * total
  {
    var p := Percentage(obtained, total);
    if p >= k {
      assert p * total >= k * total;
    } else {
      assert p * total < k * total;
    }
  }

  /**
   * The `percentage` virtual. It is always defined because the schema keeps
   * `totalMarks` at 1 or more; it is never negative, and it is at most 100
   * exactly when the obtained marks do not exceed the total.
   */
  function MarkPercentage(m: Mark): (p: real)
    requires InBounds(m)
    ensures p * m.totalMarks == m.marksObtained * 100.0
    ensures 0.0 <= p
    ensures p <= 100.0 <==> m.marksObtained <= m.totalMarks
  {
    var p := Percentage(m.marksObtained, m.totalMarks);
    PercentBetween(p, m.marksObtained, m.totalMarks);
    p
  }

  datatype Grade = APlus | A | B | C | D | F

  function GradeName(g: Grade): string
  {
    match g
    case APlus => "A+"
    case A => "A"
    case B => "B"
    case C => "C"
    case D => "D"
    case F => "F"
  }

  /** Position of a grade on the scale, F lowest. */
  function Rank(g: Grade): nat
  {
    match g
    case F => 0
    case D => 1
    case C => 2
    case B => 3
    case A => 4
    case APlus => 5
  }

  /** The `grade` virtual's bands: inclusive lower bounds, the highest matching band wins. */
  function GradeFor(p: real): (g: Grade)
    ensures g == APlus <==> p >= 90.0
    ensures g == A <==> 80.0 <= p < 90.0
    ensures g == B <==> 70.0 <= p < 80.0
    ensures g == C <==> 60.0 <= p < 70.0
    ensures g == D <==> 50.0 <= p < 60.0
    ensures g == F <==> p < 50.0
  {
    if p >= 90.0 then APlus
    else if p >= 80.0 then A
    else if p >= 70.0 then B
    else if p >= 60.0 then C
    else if p >= 50.0 then D
    else F
  }

  /** A higher percentage never yields a worse grade. */
  lemma GradeMonotone(p: real, q: real)
    requires p <= q
    ensures Rank(GradeFor(p)) <= Rank(GradeFor(q))
  {
  }

  /** The grade of a mark, stated on the stored numbers by cross-multiplication. */
  function MarkGrade(m: Mark): (g: Grade)
    requires InBounds(m)
    ensures g == APlus <==> m.marksObtained * 100.0 >= 90.0 * m.totalMarks
    ensures g == A <==> 80.0 * m.totalMarks <= m.marksObtained * 100.0 < 90.0 * m.totalMarks
    ensures g == B <==> 70.0 * m.totalMarks <= m.marksObtained * 100.0 < 80.0 * m.totalMarks
    ensures g == C <==> 60.0 * m.totalMarks <= m.marksObtained * 100.0 < 70.0 * m.totalMarks
    ensures g == D <==> 50.0 * m.totalMarks <= m.marksObtained * 100.0 < 60.0 * m.totalMarks
    ensures g == F <==> m.marksObtained * 100.0 < 50.0 * m.totalMarks
  {
    var p := MarkPercentage(m);
    PercentageAtLeast(m.marksObtained, m.totalMarks, 90.0);
    PercentageAtLeast(m.marksObtained, m.totalMarks, 80.0);
    PercentageAtLeast(m.marksObtained, m.totalMarks, 70.0);
    PercentageAtLeast(m.marksObtained, m.totalMarks, 60.0);
    PercentageAtLeast(m.marksObtained, m.totalMarks, 50.0);
    GradeFor(p)
  }

  /** Grades at the band edges. */
  lemma GradeBoundaries()
    ensures GradeFor(99.99) == APlus && GradeFor(90.0) == APlus
    ensures GradeFor(89.99) == A && GradeFor(50.0) == D && GradeFor(49.99) == F
  {
  }

  /** 45 out of 50 is 90 percent, an A+. */
  lemma FortyFiveOfFifty(m: Mark)
    requires m.marksObtained == 45.0 && m.totalMarks == 50.0
    ensures InBounds(m) && MarkPercentage(m) == 90.0 && MarkGrade(m) == APlus
  {
    var p := MarkPercentage(m);
    assert p * 50.0 == 4500.0;
  }

  /** The body of `POST /api/marks` as far as the mark itself is concerned. */
  datatype MarkRequest = MarkRequest(
    student: Id,
    batch: Id,
    subject: string,
    marksObtained: real,
    totalMarks: real,
    examType: Option<string>,
    examDate: Option<Date>,
    remarks: Option<string>)

  predicate ExamTypeAccepted(examType: Option<string>)
  {
    examType.None? || ParseExamType(examType.value).Some?
  }

  /** The validators `Mark.create` runs: both ranges, the required subject and date, and the enum. */
  predicate RequestValid(req: MarkRequest)
  {
    && ObtainedInRange(req.marksObtained)
    && TotalInRange(req.totalMarks)
    && Text.Trim(req.subject) != ""
    && req.examDate.Some?
    && ExamTypeAccepted(req.examType)
  }

  function TrimOption(s: Option<string>): Option<string>
  {
    if s.None? then None else Some(Text.Trim(s.value))
  }

  /** The exam type a request stores: its own when given, else the schema default. */
  function ExamTypeOf(examType: Option<string>): (t: ExamType)
    requires ExamTypeAccepted(examType)
    ensures examType.None? ==> t == DefaultExamType
    ensures examType.Some? ==> ExamTypeName(t) == examType.value
  {
    if examType.None? then DefaultExamType else ParseExamType(examType.value).value
  }

  /** The record `Mark.create` stores for a valid request: the schema's `trim` setters applied. */
  function FromRequest(req: MarkRequest): (m: Mark)
    requires RequestValid(req)
    ensures Persistable(m)
    ensures m.student == req.student && m.batch == req.batch
    ensures m.marksObtained == req.marksObtained && m.totalMarks == req.totalMarks
    ensures m.subject == Text.Trim(req.subject)
  {
    Text.TrimIdempotent(req.subject);
    Mark(req.student, req.batch, Text.Trim(req.subject), req.marksObtained, req.totalMarks,
         ExamTypeOf(req.examType), req.examDate.value, TrimOption(req.remarks))
  }

  /** The body of `PUT /api/marks/:id`: any subset of the fields. */
  datatype MarkPatch = MarkPatch(
    student: Option<Id>,
    batch: Option<Id>,
    subject: Option<string>,
    marksObtained: Option<real>,
    totalMarks: Option<real>,
    examType: Option<string>,
    examDate: Option<Date>,
    remarks: Option<string>)

  /**
   * The update handler's own guard: it compares the two values only when both
   * are present and truthy (a JavaScript 0 is falsy).
   */
  predicate PatchGuardRejects(p: MarkPatch)
  {
    && p.marksObtained.Some? && p.marksObtained.value != 0.0
    && p.totalMarks.Some? && p.totalMarks.value != 0.0
    && p.marksObtained.value > p.totalMarks.value
  }

  /** The update validators (`runValidators`), which check only the paths the body sets. */
  predicate PatchValid(p: MarkPatch)
  {
    && (p.marksObtained.Some? ==> ObtainedInRange(p.marksObtained.value))
    && (p.totalMarks.Some? ==> TotalInRange(p.totalMarks.value))
    && (p.subject.Some? ==> Text.Trim(p.subject.value) != "")
    && (p.examType.Some? ==> ParseExamType(p.examType.value).Some?)
  }

  /** The mark after a validated update: each supplied field replaces the stored one, the rest stay. */
  function ApplyPatch(m: Mark, p: MarkPatch): (r: Mark)
    requires PatchValid(p)
    ensures Persistable(m) ==> Persistable(r)
    ensures p.marksObtained.None? ==> r.marksObtained == m.marksObtained
    ensures p.totalMarks.None? ==> r.totalMarks == m.totalMarks
    ensures p.marksObtained.Some? ==> r.marksObtained == p.marksObtained.value
    ensures p.totalMarks.Some? ==> r.totalMarks == p.totalMarks.value
    ensures p.student.None? ==> r.student == m.student
    ensures p.student.Some? ==> r.student == p.student.value
    ensures p.batch.None? ==> r.batch == m.batch
    ensures p.batch.Some? ==> r.batch == p.batch.value
    ensures p.subject.None? ==> r.subject == m.subject
    ensures p.subject.Some? ==> r.subject == Text.Trim(p.subject.value)
    ensures p.examType.None? ==> r.examType == m.examType
    ensures p.examType.Some? ==> Some(r.examType) == ParseExamType(p.examType.value)
    ensures p.examDate.None? ==> r.examDate == m.examDate
    ensures p.examDate.Some? ==> r.examDate == p.examDate.value
    ensures p.remarks.None? ==> r.remarks == m.remarks
    ensures p.remarks.Some? ==> r.remarks == Some(Text.Trim(p.remarks.value))
  {
    Mark(
      if p.student.Some? then p.student.value else m.student,
      if p.batch.Some? then p.batch.value else m.batch,
      if p.subject.Some? then Text.Trim(p.subject.value) else m.subject,
      if p.marksObtained.Some? then p.marksObtained.value else m.marksObtained,
      if p.totalMarks.Some? then p.totalMarks.value else m.totalMarks,
      if p.examType.Some? then ParseExamType(p.examType.value).value else m.examType,
      if p.examDate.Some? then p.examDate.value else m.examDate,
      if p.remarks.Some? then Some(Text.Trim(p.remarks.value)) else m.remarks)
  }

  /**
   * The update guard lets an update that sets only one of the two numbers
   * through, and `0` obtained marks always pass it: such updates can leave
   * more obtained marks than total marks, a percentage above 100.
   */
  lemma {:induction false} OneFieldUpdateSkipsGuard(m: Mark, obtained: real)
    requires InBounds(m) && ObtainedInRange(obtained) && obtained > m.totalMarks
    ensures var p := MarkPatch(None, None, None, Some(obtained), None, None, None, None);
      && !PatchGuardRejects(p) && PatchValid(p)
      && ApplyPatch(m, p).marksObtained > ApplyPatch(m, p).totalMarks
      && MarkPercentage(ApplyPatch(m, p)) > 100.0
  {
    var p := MarkPatch(None, None, None, Some(obtained), None, None, None, None);
    var r := ApplyPatch(m, p);
    assert InBounds(r);
  }

  /** A zero obtained value is falsy, so the guard never rejects it. */
  lemma ZeroObtainedSkipsGuard(p: MarkPatch)
    requires p.marksObtained == Some(0.0)
    ensures !PatchGuardRejects(p)
  {
  }
}
