/**
 * The mark entry form of `Frontend/src/components/Marks/MarkForm.jsx`: its
 * state, the pre-fill from an edited mark, the change handler, the student
 * list narrowed to the chosen batch, the live percentage, and the submit
 * handler with its client-side checks.
 */
module MarkFormView {
  import opened Prelude
  import Text
  import Seqs
  import JsNumber
  import MarkModel

  /**
   * What a marks input holds: the text the user typed, or the number the
   * form was pre-filled with when a mark is edited.
   */
  datatype FieldValue = Typed(text: string) | Loaded(number: real)

  /** JavaScript truthiness of an input's value: the empty string and the number 0 are falsy. */
  predicate Truthy(v: FieldValue)
  {
    match v
    case Typed(t) => t != ""
    case Loaded(x) => x != 0.0
  }

  /** `formData`. Ids are the strings the API sends. */
  datatype FormData = FormData(
    student: string,
    batch: string,
    subject: string,
    marksObtained: FieldValue,
    totalMarks: FieldValue,
    examType: string,
    examDate: string,
    remarks: string)

  /** The state the form starts in: everything blank, the exam type on its default. */
  const InitialForm: FormData := FormData("", "", "", Typed(""), Typed(""), "Assignment", "", "")

  /** The `name` attributes of the form's inputs. */
  datatype Field = StudentField | BatchField | SubjectField | ObtainedField | TotalField
                 | ExamTypeField | ExamDateField | RemarksField

  /** The value of one input. */
  function Get(fd: FormData, f: Field): FieldValue
  {
    match f
    case StudentField => Typed(fd.student)
    case BatchField => Typed(fd.batch)
    case SubjectField => Typed(fd.subject)
    case ObtainedField => fd.marksObtained
    case TotalField => fd.totalMarks
    case ExamTypeField => Typed(fd.examType)
    case ExamDateField => Typed(fd.examDate)
    case RemarksField => Typed(fd.remarks)
  }

  /**
   * `handleChange`: the named input takes the typed text and every other
   * input keeps its value, except that choosing a batch clears the chosen
   * student.
   */
  function Changed(fd: FormData, name: Field, value: string): (r: FormData)
    ensures Get(r, name) == Typed(value)
    ensures name == BatchField ==> r.student == ""
    ensures forall f :: f != name && !(name == BatchField && f == StudentField) ==> Get(r, f) == Get(fd, f)
  {
    match name
    case StudentField => fd.(student := value)
    case BatchField => fd.(batch := value, student := "")
    case SubjectField => fd.(subject := value)
    case ObtainedField => fd.(marksObtained := Typed(value))
    case TotalField => fd.(totalMarks := Typed(value))
    case ExamTypeField => fd.(examType := value)
    case ExamDateField => fd.(examDate := value)
    case RemarksField => fd.(remarks := value)
  }

  /** Typing into the same input twice leaves only the second text. */
  lemma ChangeOverwrites(fd: FormData, name: Field, v: string, w: string)
    ensures Changed(Changed(fd, name, v), name, w) == Changed(fd, name, w)
  {
  }

  /** After a batch is chosen, no student is selected until one is chosen again. */
  lemma BatchChangeClearsStudent(fd: FormData, b: string, s: string)
    ensures Changed(fd, BatchField, b).student == ""
    ensures Changed(Changed(fd, BatchField, b), StudentField, s).batch == b
    ensures Changed(Changed(fd, StudentField, s), BatchField, b).student == ""
  {
  }

  /** An existing mark as the API sends it, its student and batch given by id. */
  datatype MarkJson = MarkJson(
    id: string,
    student: string,
    batch: string,
    subject: string,
    marksObtained: real,
    totalMarks: real,
    examType: string,
    examDate: string,
    remarks: Option<string>)

  /** `s.split('T')[0]`: the text before the first `T`, all of `s` when it has none. */
  function DatePart(s: string): (d: string)
    ensures |d| <= |s| && d == s[..|d|]
    ensures 'T' !in d
    ensures |d| < |s| ==> s[|d|] == 'T'
  {
    if s == [] || s[0] == 'T' then ""
    else
      var d := DatePart(s[1..]);
      assert [s[0]] + d == s[..|d| + 1];
      [s[0]] + d
  }

  /** The date of an ISO timestamp is its first ten characters. */
  lemma DatePartOfTimestamp(s: string)
    requires |s| > 10 && s[10] == 'T' && 'T' !in s[..10]
    ensures DatePart(s) == s[..10]
  {
    var d := DatePart(s);
    assert |d| == 10;
  }

  /** A date part needs no more cutting. */
  lemma DatePartIdempotent(s: string)
    ensures DatePart(DatePart(s)) == DatePart(s)
  {
    var d := DatePart(s);
    assert DatePart(d) == d[..|DatePart(d)|];
    if |DatePart(d)| < |d| {
      assert d[|DatePart(d)|] == 'T';
    }
  }

  /** The pre-fill effect for an edited mark: the numbers are loaded as numbers, absent remarks as blank. */
  function EditForm(m: MarkJson): FormData
  {
    FormData(m.student, m.batch, m.subject, Loaded(m.marksObtained), Loaded(m.totalMarks),
             m.examType, DatePart(m.examDate), if m.remarks.Some? then m.remarks.value else "")
  }

  /** A student in the form's picker, with the id of its batch. */
  datatype StudentOption = StudentOption(id: string, batch: string)

  /** `filteredStudents`: the students of the chosen batch, or all of them while no batch is chosen. */
  function FilteredStudents(students: seq<StudentOption>, batch: string): (r: seq<StudentOption>)
    ensures batch == "" ==> r == students
    ensures batch != "" ==> forall s :: s in r <==> s in students && s.batch == batch
    ensures batch != "" ==> Seqs.IsSubsequence(r, students)
    ensures batch != "" ==> forall s :: multiset(r)[s] == if s.batch == batch then multiset(students)[s] else 0
  {
    if batch == "" then students else Seqs.Filter(students, (s: StudentOption) => s.batch == batch)
  }

  /** `parseFloat` of an input's value; a loaded number reads back as itself. */
  function FloatOf(v: FieldValue): Option<real>
  {
    match v
    case Typed(t) => JsNumber.ParseFloat(t)
    case Loaded(x) => Some(x)
  }

  /** What the percentage line displays: 0, a finite percentage, or `NaN`/`Infinity`. */
  datatype Shown = Zero | Percent(value: real) | NonFinite

  function ShownValue(p: Shown): Option<real>
  {
    match p
    case Zero => Some(0.0)
    case Percent(x) => Some(x)
    case NonFinite => None
  }

  /**
   * The live percentage: 0 until both inputs are truthy, then
   * `parseFloat(obtained) / parseFloat(total) * 100`, which is not finite
   * when either does not parse or the total is 0.
   */
  function PercentShown(fd: FormData): (p: Shown)
    ensures !Truthy(fd.marksObtained) || !Truthy(fd.totalMarks) ==> p == Zero
    ensures p.Percent? ==> FloatOf(fd.marksObtained).Some? && FloatOf(fd.totalMarks).Some?
    ensures p.Percent? ==> p.value * FloatOf(fd.totalMarks).value == FloatOf(fd.marksObtained).value * 100.0
    ensures Truthy(fd.marksObtained) && Truthy(fd.totalMarks) ==>
      (p == NonFinite <==>
        FloatOf(fd.marksObtained).None? || FloatOf(fd.totalMarks).None? || FloatOf(fd.totalMarks).value == 0.0)
  {
    if !Truthy(fd.marksObtained) || !Truthy(fd.totalMarks) then Zero
    else
      var o := FloatOf(fd.marksObtained);
      var t := FloatOf(fd.totalMarks);
      if o.Some? && t.Some? && t.value != 0.0 then Percent(o.value / t.value * 100.0)
      else NonFinite
  }

  /**
   * Whenever both inputs read as numbers and the total is positive, the form
   * shows the same percentage as the stored mark's `percentage` virtual.
   */
  lemma PercentShownMatchesVirtual(fd: FormData, o: real, t: real)
    requires FloatOf(fd.marksObtained) == Some(o) && FloatOf(fd.totalMarks) == Some(t) && t > 0.0
    ensures ShownValue(PercentShown(fd)) == Some(MarkModel.Percentage(o, t))
  {
    EmptyTextParsesToNothing();
  }

  /** A typed `"0"` is truthy, so a total of `"0"` is divided by and shows `NaN` or `Infinity`. */
  lemma TypedZeroTotalNotFinite(fd: FormData)
    requires Truthy(fd.marksObtained) && fd.totalMarks == Typed("0")
    ensures PercentShown(fd) == NonFinite
  {
    assert JsNumber.ParseFloat("0") == Some(0.0) by {
      JsNumber.ZeroExample();
    }
  }

  /** The empty text is not a number to `parseFloat`. */
  lemma EmptyTextParsesToNothing()
    ensures JsNumber.ParseFloat("") == None
  {
    assert ""[0..] == "";
  }

  /** An input is blank when its trimmed text is empty; a loaded number never is. */
  predicate Blank(v: FieldValue)
  {
    v.Typed? && Text.Trim(v.text) == ""
  }

  /** `Number(value?.toString().trim())` of an input. */
  function NumberOf(v: FieldValue): Option<real>
  {
    match v
    case Typed(t) => JsNumber.Number(Text.Trim(t))
    case Loaded(x) => Some(x)
  }

  /** How the submit handler's checks end. */
  datatype Check = Skipped | ObtainedTooHigh | Passed

  /**
   * The submit handler's checks: a blank or non-numeric input stops the
   * submission silently; obtained marks above the total stop it with a
   * message; otherwise the form is sent.
   */
  function SubmitCheck(fd: FormData): (c: Check)
    ensures c == Skipped <==>
      Blank(fd.marksObtained) || Blank(fd.totalMarks) || NumberOf(fd.marksObtained).None? || NumberOf(fd.totalMarks).None?
    ensures c == Passed ==> NumberOf(fd.marksObtained).value <= NumberOf(fd.totalMarks).value
    ensures c == ObtainedTooHigh ==> NumberOf(fd.marksObtained).value > NumberOf(fd.totalMarks).value
  {
    var o := fd.marksObtained;
    var t := fd.totalMarks;
    if Blank(o) || Blank(t) || NumberOf(o).None? || NumberOf(t).None? then Skipped
    else if NumberOf(o).value > NumberOf(t).value then ObtainedTooHigh
    else Passed
  }

  /** A mark opened for editing passes the checks exactly when its obtained marks do not exceed its total. */
  lemma EditedMarkCheck(m: MarkJson)
    ensures SubmitCheck(EditForm(m)) == (if m.marksObtained > m.totalMarks then ObtainedTooHigh else Passed)
  {
  }

  /** The form checks only the order of the two numbers, not the schema's 0 to 100 bounds. */
  lemma FormSendsOutOfRangeMarks(fd: FormData)
    requires fd.marksObtained == Loaded(150.0) && fd.totalMarks == Loaded(200.0)
    ensures SubmitCheck(fd) == Passed
    ensures !MarkModel.ObtainedInRange(NumberOf(fd.marksObtained).value)
  {
  }

  /** A blank obtained-marks input stops the submission whatever the total says. */
  lemma BlankObtainedSkips(fd: FormData)
    requires fd.marksObtained == Typed(" ")
    ensures SubmitCheck(fd) == Skipped
  {
    assert Text.IsSpace(" "[0]);
  }

  /**
   * The create and update handlers' `marksObtained > totalMarks` on the body
   * the form posts. Two typed inputs arrive as strings and compare as strings;
   * a loaded number on either side makes the comparison numeric, and a text
   * that is no number compares false.
   */
  predicate ServerGuardRejects(fd: FormData)
  {
    if fd.marksObtained.Typed? && fd.totalMarks.Typed? then
      Text.StringLess(fd.totalMarks.text, fd.marksObtained.text)
    else
      && NumberOf(fd.marksObtained).Some? && NumberOf(fd.totalMarks).Some?
      && NumberOf(fd.marksObtained).value > NumberOf(fd.totalMarks).value
  }

  /** Left as loaded, the two numbers meet the same comparison on the server as in the form. */
  lemma LoadedMarksGuardAgrees(fd: FormData)
    requires fd.marksObtained.Loaded? && fd.totalMarks.Loaded?
    ensures ServerGuardRejects(fd) <==> SubmitCheck(fd) == ObtainedTooHigh
  {
  }

  /** Typed `9` of `10` passes the form's check, and the server refuses it: `"9" > "10"` as strings. */
  lemma TypedMarksCompareAsText(fd: FormData)
    requires fd.marksObtained == Typed("9") && fd.totalMarks == Typed("10")
    ensures SubmitCheck(fd) == Passed
    ensures ServerGuardRejects(fd)
  {
    NineAndTen();
    assert Text.StringLess("10", "9");
  }

  lemma NineAndTen()
    ensures NumberOf(Typed("9")) == Some(9.0) && NumberOf(Typed("10")) == Some(10.0)
  {
    NumberNine();
    NumberTen();
  }

  lemma NumberNine()
    ensures JsNumber.Number(Text.Trim("9")) == Some(9.0)
  {
    assert !Text.IsSpace('9');
    assert Text.Trim("9") == "9";
    assert JsNumber.DotIndex("9") == 1 by { assert "9"[1..] == ""; }
    assert "9"[..1] == "9";
    assert JsNumber.DigitsValue("9") == 9 by { assert "9"[..0] == ""; }
  }

  lemma NumberTen()
    ensures JsNumber.Number(Text.Trim("10")) == Some(10.0)
  {
    assert !Text.IsSpace('1') && !Text.IsSpace('0');
    assert Text.Trim("10") == "10";
    assert JsNumber.DotIndex("10") == 2 by { assert "10"[1..] == "0"; assert "0"[1..] == ""; }
    assert "10"[..2] == "10";
    assert JsNumber.DigitsValue("1") == 1 by { assert "1"[..0] == ""; }
    assert JsNumber.DigitsValue("10") == 10 by { assert "10"[..1] == "1"; }
  }

  /** The request the submit handler sends. */
  datatype ApiCall = NoCall | CreateCall(body: FormData) | UpdateCall(id: string, body: FormData)

  /** How the request ends: saved, or refused with the server's message, if it sent one. */
  datatype ApiOutcome = Saved | Rejected(message: Option<string>)

  const ObtainedTooHighMessage: string := "Marks obtained cannot be greater than total marks"
  const SaveFailedMessage: string := "Failed to save mark entry"

  /** `err.response?.data?.message || 'Failed to save mark entry'`. */
  function FailureMessage(message: Option<string>): (m: string)
    ensures m != ""
    ensures message.Some? && message.value != "" ==> m == message.value
    ensures message.None? || message.value == "" ==> m == SaveFailedMessage
  {
    if message.Some? && message.value != "" then message.value else SaveFailedMessage
  }

  class MarkForm {
    var formData: FormData
    var loading: bool
    var error: string

    constructor()
      ensures formData == InitialForm && !loading && error == ""
    {
      formData := InitialForm;
      loading := false;
      error := "";
    }

    /** The effect that runs when the form is opened on an existing mark. */
    method LoadMark(mark: MarkJson)
      modifies this
      ensures formData == EditForm(mark)
      ensures loading == old(loading) && error == old(error)
    {
      formData := EditForm(mark);
    }

    method HandleChange(name: Field, value: string)
      modifies this
      ensures formData == Changed(old(formData), name, value)
      ensures loading == old(loading) && error == old(error)
    {
      if name == BatchField {
        formData := formData.(batch := value, student := "");
      } else {
        formData := Changed(formData, name, value);
      }
    }

    /**
     * `handleSubmit`. `editing` is the id of the mark being edited, if any;
     * `outcome` is how the request ends, consulted only when one is sent.
     * A submission the checks skip leaves `loading` set.
     */
    method HandleSubmit(editing: Option<string>, outcome: ApiOutcome) returns (call: ApiCall, succeeded: bool)
      modifies this
      ensures formData == old(formData)
      ensures SubmitCheck(formData) == Skipped ==> call == NoCall && !succeeded && loading && error == ""
      ensures SubmitCheck(formData) == ObtainedTooHigh ==>
        call == NoCall && !succeeded && !loading && error == ObtainedTooHighMessage
      ensures SubmitCheck(formData) == Passed ==>
        && call == (if editing.Some? then UpdateCall(editing.value, formData) else CreateCall(formData))
        && !loading
        && succeeded == outcome.Saved?
        && error == (if outcome.Saved? then "" else FailureMessage(outcome.message))
    {
      loading := true;
      error := "";
      call := NoCall;
      succeeded := false;
      var obtained := NumberOf(formData.marksObtained);
      var total := NumberOf(formData.totalMarks);
      if Blank(formData.marksObtained) || Blank(formData.totalMarks) || obtained.None? || total.None? {
        error := "";
        return;
      }
      if obtained.value > total.value {
        error := ObtainedTooHighMessage;
        loading := false;
        return;
      }
      error := "";
      if editing.Some? {
        call := UpdateCall(editing.value, formData);
      } else {
        call := CreateCall(formData);
      }
      if outcome.Saved? {
        succeeded := true;
      } else {
        error := FailureMessage(outcome.message);
      }
      loading := false;
    }
  }
}
