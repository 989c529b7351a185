/**
 * The client-side filters of the three list pages:
 * `Frontend/src/components/Marks/MarkList.jsx`,
 * `Frontend/src/components/Students/StudentList.jsx` and
 * `Frontend/src/components/Batches/BatchList.jsx`. Each page keeps the
 * records that meet every criterion it shows; an empty criterion is no
 * criterion. References to other records are their ids.
 */
module ListFilters {
  import Text
  import Seqs
  import MarkModel

  /** `haystack.toLowerCase().includes(term.toLowerCase())`. */
  predicate Mentions(haystack: string, term: string)
  {
    Text.Contains(Text.ToLower(haystack), Text.ToLower(term))
  }

  /** Lower-casing commutes with taking a slice. */
  lemma LowerSlice(s: string, i: nat, j: nat)
    requires i <= j <= |s|
    ensures Text.ToLower(s)[i..j] == Text.ToLower(s[i..j])
  {
    var piece := s[i..j];
    var lowered := Text.ToLower(s)[i..j];
    assert forall k :: 0 <= k < |piece| ==> lowered[k] == Text.LowerChar(piece[k]);
    Text.ToLowerPointwise(piece, lowered);
  }

  /** A term that occurs in the text literally is found, whatever the case of either. */
  lemma OccurrenceIsMentioned(haystack: string, term: string)
    requires Text.Contains(haystack, term)
    ensures Mentions(haystack, term)
  {
    Text.ContainsAt(haystack, term);
    var i :| Text.OccursAt(haystack, term, i);
    LowerSlice(haystack, i, i + |term|);
    assert Text.OccursAt(Text.ToLower(haystack), Text.ToLower(term), i);
    Text.ContainsAt(Text.ToLower(haystack), Text.ToLower(term));
  }

  /** The search ignores the case of the term. */
  lemma MentionsIgnoresCase(haystack: string, term: string)
    ensures Mentions(haystack, Text.ToUpper(term)) == Mentions(haystack, term)
    ensures Mentions(haystack, Text.ToLower(term)) == Mentions(haystack, term)
  {
    Text.LowerOfUpper(term);
    Text.LowerIdempotent(term);
  }

  /** The empty term is found in every text. */
  lemma EmptyTermMentioned(haystack: string)
    ensures Mentions(haystack, "")
  {
    Text.ContainsEmpty(Text.ToLower(haystack));
  }

  /** The `filterActive` select of the student and batch pages: `'all'`, `'active'` or `'inactive'`. */
  predicate StatusMatches(filter: string, isActive: bool)
  {
    || filter == "all"
    || (filter == "active" && isActive)
    || (filter == "inactive" && !isActive)
  }

  // ---------------------------------------------------------------- marks

  /** A row of the marks table. */
  datatype MarkRow = MarkRow(student: string, batch: string, subject: string, examType: string)

  datatype MarkFilters = MarkFilters(student: string, batch: string, subject: string, examType: string)

  const NoMarkFilters: MarkFilters := MarkFilters("", "", "", "")

  /** The four criteria of `filteredMarks`; the subject is searched, the others are compared exactly. */
  predicate MarkMatches(m: MarkRow, f: MarkFilters)
  {
    && (f.student == "" || m.student == f.student)
    && (f.batch == "" || m.batch == f.batch)
    && (f.subject == "" || Mentions(m.subject, f.subject))
    && (f.examType == "" || m.examType == f.examType)
  }

  /** `filteredMarks`: the rows meeting every criterion, in table order. */
  function FilteredMarks(marks: seq<MarkRow>, f: MarkFilters): (r: seq<MarkRow>)
    ensures |r| <= |marks|
    ensures forall m :: m in r <==> m in marks && MarkMatches(m, f)
    ensures Seqs.IsSubsequence(r, marks)
    ensures forall m :: multiset(r)[m] == if MarkMatches(m, f) then multiset(marks)[m] else 0
  {
    Seqs.Filter(marks, (m: MarkRow) => MarkMatches(m, f))
  }

  /** With no criterion set, every mark is listed. */
  lemma NoMarkFiltersListAll(marks: seq<MarkRow>)
    ensures FilteredMarks(marks, NoMarkFilters) == marks
  {
    Seqs.FilterKeepsAll(marks, (m: MarkRow) => MarkMatches(m, NoMarkFilters));
  }

  /**
   * Rows carry no id, so two exams of one subject by one student can be equal
   * rows; the filter keeps every copy, as `marks.filter` does.
   */
  lemma {:induction false} RepeatedRowsKept(m: MarkRow, f: MarkFilters)
    requires MarkMatches(m, f)
    ensures FilteredMarks([m, m], f) == [m, m]
  {
    var r := FilteredMarks([m, m], f);
    assert multiset([m, m])[m] == 2;
    assert multiset(r)[m] == 2;
    assert |r| == 2 by {
      assert |multiset(r)| == |r|;
      assert multiset(r)[m] <= |multiset(r)|;
    }
    assert r[0] in r && r[1] in r;
  }

  /** A subject filter lists a mark whenever the typed text occurs in its subject, in any case. */
  lemma SubjectFilterFindsOccurrence(m: MarkRow, f: MarkFilters)
    requires f.student == "" && f.batch == "" && f.examType == ""
    requires Text.Contains(m.subject, f.subject)
    ensures MarkMatches(m, f)
  {
    OccurrenceIsMentioned(m.subject, f.subject);
  }

  /**
   * `marks.map(m => m.subject)` over the page's rows; `Statistics.SubjectColumn`
   * is the same column of the stored marks the statistics route reads.
   */
  function SubjectColumn(marks: seq<MarkRow>): (r: seq<string>)
    ensures |r| == |marks|
    ensures forall i :: 0 <= i < |marks| ==> r[i] == marks[i].subject
  {
    seq(|marks|, i requires 0 <= i < |marks| => marks[i].subject)
  }

  /** `uniqueSubjects`: each subject of the listed marks once. */
  function UniqueSubjects(marks: seq<MarkRow>): (r: seq<string>)
    ensures forall s :: s in r <==> exists m :: m in marks && m.subject == s
    ensures Seqs.NoDuplicates(r)
  {
    var subjects := SubjectColumn(marks);
    assert forall s :: s in subjects <==> exists m :: m in marks && m.subject == s by {
      forall s | s in subjects ensures exists m :: m in marks && m.subject == s {
        var i :| 0 <= i < |subjects| && subjects[i] == s;
        assert marks[i] in marks;
      }
      forall s | exists m :: m in marks && m.subject == s ensures s in subjects {
        var m :| m in marks && m.subject == s;
        var i :| 0 <= i < |marks| && marks[i] == m;
        assert subjects[i] == s;
      }
    }
    Seqs.DistinctNoDuplicates(subjects);
    Seqs.Distinct(subjects)
  }

  /** The subjects come in the order of their first marks. */
  lemma UniqueSubjectsInFirstOccurrenceOrder(marks: seq<MarkRow>)
    ensures forall i, j :: 0 <= i < j < |UniqueSubjects(marks)| ==>
      Seqs.FirstIndex(SubjectColumn(marks), UniqueSubjects(marks)[i]) < Seqs.FirstIndex(SubjectColumn(marks), UniqueSubjects(marks)[j])
  {
    Seqs.DistinctKeepsFirstOccurrenceOrder(SubjectColumn(marks));
  }

  /** The exam types offered by the filter. */
  const ExamTypeOptions: seq<string> := ["Quiz", "Assignment", "Midterm", "Final", "Project", "Other"]

  /** The filter offers exactly the schema's exam types, in the schema's order, and each names one. */
  lemma ExamTypeOptionsMatchSchema()
    ensures ExamTypeOptions == MarkModel.ExamTypeNames
    ensures forall i :: 0 <= i < |ExamTypeOptions| ==> MarkModel.ParseExamType(ExamTypeOptions[i]).Some?
  {
  }

  // ------------------------------------------------------------- students

  /** A row of the students table. */
  datatype StudentRow = StudentRow(
    firstName: string,
    lastName: string,
    email: string,
    enrollmentNumber: string,
    batch: string,
    isActive: bool)

  /** The search box looks in both names, the email and the enrollment number. */
  predicate StudentSearchMatches(s: StudentRow, term: string)
  {
    || Mentions(s.firstName, term)
    || Mentions(s.lastName, term)
    || Mentions(s.email, term)
    || Mentions(s.enrollmentNumber, term)
  }

  predicate StudentMatches(s: StudentRow, term: string, batch: string, status: string)
  {
    && StudentSearchMatches(s, term)
    && (batch == "" || s.batch == batch)
    && StatusMatches(status, s.isActive)
  }

  /** `filteredStudents`: the rows meeting all three criteria, in table order. */
  function FilteredStudents(students: seq<StudentRow>, term: string, batch: string, status: string): (r: seq<StudentRow>)
    ensures forall s :: s in r <==> s in students && StudentMatches(s, term, batch, status)
    ensures Seqs.IsSubsequence(r, students)
    ensures forall s :: multiset(r)[s] == if StudentMatches(s, term, batch, status) then multiset(students)[s] else 0
  {
    Seqs.Filter(students, (s: StudentRow) => StudentMatches(s, term, batch, status))
  }

  /** The page's initial criteria (empty search, no batch, `'all'`) list every student. */
  lemma InitialStudentFiltersListAll(students: seq<StudentRow>)
    ensures FilteredStudents(students, "", "", "all") == students
  {
    forall s | s in students ensures StudentMatches(s, "", "", "all") {
      EmptyTermMentioned(s.firstName);
    }
    Seqs.FilterKeepsAll(students, (s: StudentRow) => StudentMatches(s, "", "", "all"));
  }

  /**
   * The `'active'` and `'inactive'` views split the `'all'` view: every
   * student listed under `'all'` is listed in exactly one of them.
   */
  lemma StudentStatusViewsPartition(students: seq<StudentRow>, term: string, batch: string, s: StudentRow)
    ensures s in FilteredStudents(students, term, batch, "all") <==>
      s in FilteredStudents(students, term, batch, "active") || s in FilteredStudents(students, term, batch, "inactive")
    ensures !(s in FilteredStudents(students, term, batch, "active") && s in FilteredStudents(students, term, batch, "inactive"))
  {
  }

  /** A status value other than the three options lists nothing. */
  lemma UnknownStatusListsNoStudent(students: seq<StudentRow>, term: string, batch: string, status: string)
    requires status != "all" && status != "active" && status != "inactive"
    ensures FilteredStudents(students, term, batch, status) == []
  {
    Seqs.FilterKeepsNone(students, (s: StudentRow) => StudentMatches(s, term, batch, status));
  }

  // -------------------------------------------------------------- batches

  /** A row of the batches table. */
  datatype BatchRow = BatchRow(batchName: string, batchCode: string, isActive: bool)

  predicate BatchMatches(b: BatchRow, term: string, status: string)
  {
    (Mentions(b.batchName, term) || Mentions(b.batchCode, term)) && StatusMatches(status, b.isActive)
  }

  /** `filteredBatches`: the rows whose name or code contains the search term and whose status matches. */
  function FilteredBatches(batches: seq<BatchRow>, term: string, status: string): (r: seq<BatchRow>)
    ensures forall b :: b in r <==> b in batches && BatchMatches(b, term, status)
    ensures Seqs.IsSubsequence(r, batches)
    ensures forall b :: multiset(r)[b] == if BatchMatches(b, term, status) then multiset(batches)[b] else 0
  {
    Seqs.Filter(batches, (b: BatchRow) => BatchMatches(b, term, status))
  }

  /** The page's initial criteria list every batch. */
  lemma InitialBatchFiltersListAll(batches: seq<BatchRow>)
    ensures FilteredBatches(batches, "", "all") == batches
  {
    forall b | b in batches ensures BatchMatches(b, "", "all") {
      EmptyTermMentioned(b.batchName);
    }
    Seqs.FilterKeepsAll(batches, (b: BatchRow) => BatchMatches(b, "", "all"));
  }

  /** A batch code is found by its stored, upper-case form typed in lower case. */
  lemma BatchCodeSearchIgnoresCase(b: BatchRow, term: string)
    requires Text.Contains(b.batchCode, Text.ToUpper(term))
    ensures BatchMatches(b, term, "all")
  {
    OccurrenceIsMentioned(b.batchCode, Text.ToUpper(term));
    MentionsIgnoresCase(b.batchCode, term);
  }

  /** The `'active'` and `'inactive'` views split the `'all'` view. */
  lemma BatchStatusViewsPartition(batches: seq<BatchRow>, term: string, b: BatchRow)
    ensures b in FilteredBatches(batches, term, "all") <==>
      b in FilteredBatches(batches, term, "active") || b in FilteredBatches(batches, term, "inactive")
    ensures !(b in FilteredBatches(batches, term, "active") && b in FilteredBatches(batches, term, "inactive"))
  {
  }
}
