/**
 * The two reports of `Backend/routes/markRoutes.js`: the per-student totals of
 * `GET /api/marks/student/:studentId` and the detailed statistics of
 * `GET /api/marks/statistics/:studentId`. Each report is a loop in the source,
 * modelled as a method proved equal to a specification function; the
 * specification functions fold from the end of the sequence, the way a loop
 * sees its growing prefix.
 */
module Statistics {
  import opened Prelude
  import opened MarkModel
  import Seqs

  /** Every mark passed its schema's range validators, so its percentage is defined. */
  predicate AllInBounds(ms: seq<Mark>)
  {
    forall i :: 0 <= i < |ms| ==> InBounds(ms[i])
  }

  lemma PrefixInBounds(ms: seq<Mark>, k: nat)
    requires AllInBounds(ms) && k <= |ms|
    ensures AllInBounds(ms[..k])
  {
    assert forall i :: 0 <= i < k ==> ms[..k][i] == ms[i];
  }

  // ---------------------------------------------------------------- sums

  function ObtainedSum(ms: seq<Mark>): real
  {
    if ms == [] then 0.0 else ObtainedSum(ms[..|ms| - 1]) + ms[|ms| - 1].marksObtained
  }

  function MaxSum(ms: seq<Mark>): real
  {
    if ms == [] then 0.0 else MaxSum(ms[..|ms| - 1]) + ms[|ms| - 1].totalMarks
  }

  lemma SumsAppend(ms: seq<Mark>, m: Mark)
    ensures ObtainedSum(ms + [m]) == ObtainedSum(ms) + m.marksObtained
    ensures MaxSum(ms + [m]) == MaxSum(ms) + m.totalMarks
  {
    assert (ms + [m])[..|ms|] == ms;
  }

  /** Each total is at least 1, so the total of `n` marks is at least `n`. */
  lemma {:induction false} MaxSumAtLeastCount(ms: seq<Mark>)
    requires AllInBounds(ms)
    ensures MaxSum(ms) >= |ms| as real
  {
    if ms != [] {
      PrefixInBounds(ms, |ms| - 1);
      MaxSumAtLeastCount(ms[..|ms| - 1]);
    }
  }

  /** When no mark exceeds its total, the obtained sum does not exceed the total sum. */
  lemma {:induction false} ObtainedSumAtMostMaxSum(ms: seq<Mark>)
    requires forall i :: 0 <= i < |ms| ==> 0.0 <= ms[i].marksObtained <= ms[i].totalMarks
    ensures 0.0 <= ObtainedSum(ms) <= MaxSum(ms)
  {
    if ms != [] {
      var front := ms[..|ms| - 1];
      assert forall i :: 0 <= i < |front| ==> front[i] == ms[i];
      ObtainedSumAtMostMaxSum(front);
    }
  }

  // ---------------------------------------------------------------- per-student totals

  /** The `statistics` object of `GET /api/marks/student/:studentId`, before `toFixed`. */
  datatype Totals = Totals(totalMarksObtained: real, totalMaxMarks: real, overallPercentage: real)

  /** The sums of both columns, and their ratio as a percentage once the total is positive (else 0). */
  function TotalsOf(ms: seq<Mark>): (t: Totals)
    ensures t.totalMarksObtained == ObtainedSum(ms) && t.totalMaxMarks == MaxSum(ms)
    ensures t.totalMaxMarks > 0.0 ==> t.overallPercentage * t.totalMaxMarks == t.totalMarksObtained * 100.0
    ensures t.totalMaxMarks <= 0.0 ==> t.overallPercentage == 0.0
  {
    var o := ObtainedSum(ms);
    var m := MaxSum(ms);
    Totals(o, m, if m > 0.0 then Percentage(o, m) else 0.0)
  }

  /** No marks give all-zero totals. */
  lemma TotalsOfNone()
    ensures TotalsOf([]) == Totals(0.0, 0.0, 0.0)
  {
  }

  /** For valid marks none of which exceeds its total, the overall percentage lies in [0, 100]. */
  lemma TotalsPercentageBounded(ms: seq<Mark>)
    requires AllInBounds(ms)
    requires forall i :: 0 <= i < |ms| ==> ms[i].marksObtained <= ms[i].totalMarks
    ensures 0.0 <= TotalsOf(ms).overallPercentage <= 100.0
  {
    ObtainedSumAtMostMaxSum(ms);
    var t := TotalsOf(ms);
    if t.totalMaxMarks > 0.0 {
      PercentBetween(t.overallPercentage, t.totalMarksObtained, t.totalMaxMarks);
    }
  }

  /**
   * The subject part of one `forEach` step. `!subjectMap[mark.subject]` holds
   * when the subject has neither an own entry nor an inherited member; the
   * marks of an inherited subject are added onto that member, which is no
   * entry of the map.
   */
  method Record(done: seq<Mark>, m: Mark, subjectMap: map<string, Tally>, order: seq<string>)
    returns (subjectMap': map<string, Tally>, order': seq<string>)
    requires MapMatches(done, subjectMap, order)
    ensures MapMatches(done + [m], subjectMap', order')
  {
    subjectMap', order' := subjectMap, order;
    if !Inherited(m.subject) {
      // A subject seen for the first time starts from an empty tally.
      var tally := Tally(m.subject, 0.0, 0.0, 0);
      if m.subject in subjectMap {
        SeenStep(done, m, subjectMap, order);
        tally := subjectMap[m.subject];
      } else {
        FirstStep(done, m, subjectMap, order);
        order' := order + [m.subject];
      }
      subjectMap' := subjectMap[m.subject := Add(tally, m)];
    } else {
      SkipStep(done, m, subjectMap, order);
    }
  }

  /** The `forEach` loop of `GET /api/marks/student/:studentId`. */
  method StudentTotals(ms: seq<Mark>) returns (t: Totals)
    ensures t == TotalsOf(ms)
  {
    var totalMarksObtained := 0.0;
    var totalMaxMarks := 0.0;
    for i := 0 to |ms|
      invariant totalMarksObtained == ObtainedSum(ms[..i])
      invariant totalMaxMarks == MaxSum(ms[..i])
    {
      assert ms[..i + 1] == ms[..i] + [ms[i]];
      SumsAppend(ms[..i], ms[i]);
      totalMarksObtained := totalMarksObtained + ms[i].marksObtained;
      totalMaxMarks := totalMaxMarks + ms[i].totalMarks;
    }
    assert ms[..|ms|] == ms;
    var overall := if totalMaxMarks > 0.0 then Percentage(totalMarksObtained, totalMaxMarks) else 0.0;
    t := Totals(totalMarksObtained, totalMaxMarks, overall);
  }

  // ---------------------------------------------------------------- percentages

  /** The percentage of each mark, in order. */
  function Percentages(ms: seq<Mark>): (ps: seq<real>)
    requires AllInBounds(ms)
    ensures |ps| == |ms|
    ensures forall i :: 0 <= i < |ms| ==> ps[i] == MarkPercentage(ms[i])
  {
    if ms == [] then []
    else
      PrefixInBounds(ms, |ms| - 1);
      Percentages(ms[..|ms| - 1]) + [MarkPercentage(ms[|ms| - 1])]
  }

  function Sum(xs: seq<real>): real
  {
    if xs == [] then 0.0 else Sum(xs[..|xs| - 1]) + xs[|xs| - 1]
  }

  /** The running maximum of the loop: it starts at 0 and takes any larger value. */
  function Highest(xs: seq<real>): (h: real)
    ensures h >= 0.0
    ensures forall i :: 0 <= i < |xs| ==> xs[i] <= h
  {
    if xs == [] then 0.0
    else
      var h := Highest(xs[..|xs| - 1]);
      var x := xs[|xs| - 1];
      assert forall i :: 0 <= i < |xs| - 1 ==> xs[..|xs| - 1][i] == xs[i];
      if x > h then x else h
  }

  /** The running minimum of the loop: it starts at 100 and takes any smaller value. */
  function Lowest(xs: seq<real>): (l: real)
    ensures l <= 100.0
    ensures forall i :: 0 <= i < |xs| ==> l <= xs[i]
  {
    if xs == [] then 100.0
    else
      var l := Lowest(xs[..|xs| - 1]);
      var x := xs[|xs| - 1];
      assert forall i :: 0 <= i < |xs| - 1 ==> xs[..|xs| - 1][i] == xs[i];
      if x < l then x else l
  }

  /** The running maximum is one of the values, or the starting 0. */
  lemma {:induction false} HighestAttained(xs: seq<real>)
    ensures Highest(xs) == 0.0 || Highest(xs) in xs
  {
    if xs != [] {
      var front := xs[..|xs| - 1];
      HighestAttained(front);
      Seqs.SplitLast(xs);
    }
  }

  /** The running minimum is one of the values, or the starting 100. */
  lemma {:induction false} LowestAttained(xs: seq<real>)
    ensures Lowest(xs) == 100.0 || Lowest(xs) in xs
  {
    if xs != [] {
      var front := xs[..|xs| - 1];
      LowestAttained(front);
      Seqs.SplitLast(xs);
    }
  }

  lemma FoldsAppend(xs: seq<real>, x: real)
    ensures Sum(xs + [x]) == Sum(xs) + x
    ensures Highest(xs + [x]) == if x > Highest(xs) then x else Highest(xs)
    ensures Lowest(xs + [x]) == if x < Lowest(xs) then x else Lowest(xs)
  {
    assert (xs + [x])[..|xs|] == xs;
  }

  lemma {:induction false} SumBetween(xs: seq<real>, lo: real, hi: real)
    requires forall i :: 0 <= i < |xs| ==> lo <= xs[i] <= hi
    ensures |xs| as real * lo <= Sum(xs) <= |xs| as real * hi
  {
    if xs != [] {
      var front := xs[..|xs| - 1];
      assert forall i :: 0 <= i < |front| ==> front[i] == xs[i];
      SumBetween(front, lo, hi);
      var n := |front| as real;
      assert |xs| as real * lo == n * lo + lo && |xs| as real * hi == n * hi + hi;
    }
  }

  /** Dividing by a positive count keeps the bounds that hold for the count's multiples. */
  lemma DivideBetween(a: real, n: real, lo: real, hi: real)
    requires n > 0.0 && n * lo <= a <= n * hi
    ensures lo <= a / n <= hi
  {
    var q := a / n;
    assert q * n == a;
    ScaleStrict(q, lo, n);
    ScaleStrict(hi, q, n);
  }

  /** `sum / count`: the arithmetic mean of a non-empty sequence. */
  function Mean(xs: seq<real>): real
    requires xs != []
  {
    Sum(xs) / |xs| as real
  }

  /** The mean of a non-empty sequence lies between its lowest and highest values as the loop tracks them. */
  lemma AverageBetween(xs: seq<real>)
    requires xs != []
    ensures Lowest(xs) <= Mean(xs) <= Highest(xs)
  {
    var lo, hi, n, a := Lowest(xs), Highest(xs), |xs| as real, Sum(xs);
    SumBetween(xs, lo, hi);
    DivideBetween(a, n, lo, hi);
  }

  // ---------------------------------------------------------------- subjects

  /**
   * The subject of each stored mark, in order. The marks page takes the same
   * column of its own table rows (`ListFilters.SubjectColumn`); the two are
   * kept apart because a stored mark and a populated row are different records.
   */
  function SubjectColumn(ms: seq<Mark>): (r: seq<string>)
    ensures |r| == |ms|
    ensures forall i :: 0 <= i < |ms| ==> r[i] == ms[i].subject
  {
    seq(|ms|, i requires 0 <= i < |ms| => ms[i].subject)
  }

  /**
   * The property names a plain object `{}` inherits from `Object.prototype`.
   * For these `subjectMap[s]` is already truthy before any mark, so the loop
   * never gives them an own entry and `Object.values` never lists them.
   */
  const InheritedNames: set<string> :=
    {"constructor", "__proto__", "hasOwnProperty", "isPrototypeOf", "propertyIsEnumerable",
     "toString", "valueOf", "toLocaleString",
     "__defineGetter__", "__defineSetter__", "__lookupGetter__", "__lookupSetter__"}

  predicate Inherited(s: string)
  {
    s in InheritedNames
  }

  /** The subjects of the marks whose subject is not inherited, in order. */
  function KeyColumn(ms: seq<Mark>): (r: seq<string>)
    ensures |r| <= |ms|
    ensures forall s :: s in r <==> s in SubjectColumn(ms) && !Inherited(s)
    ensures (forall i :: 0 <= i < |ms| ==> !Inherited(ms[i].subject)) ==> |r| == |ms|
  {
    if ms == [] then []
    else
      var front, last := ms[..|ms| - 1], ms[|ms| - 1];
      assert forall i :: 0 <= i < |front| ==> front[i] == ms[i];
      KeyColumn(front) + (if Inherited(last.subject) then [] else [last.subject])
  }

  /** The keys of `subjectMap` in the order the loop inserts them: each own subject at its first mark. */
  function Subjects(ms: seq<Mark>): (r: seq<string>)
    ensures forall s :: s in r <==> s in SubjectColumn(ms) && !Inherited(s)
  {
    Seqs.Distinct(KeyColumn(ms))
  }

  /** Each subject is listed once: `subjectMap` has one key per subject. */
  lemma SubjectsOnce(ms: seq<Mark>)
    ensures Seqs.NoDuplicates(Subjects(ms))
  {
    Seqs.DistinctNoDuplicates(KeyColumn(ms));
  }

  /** A subject is listed exactly when it is not inherited and some mark carries it. */
  lemma SubjectsAreTheMarksSubjects(ms: seq<Mark>, s: string)
    ensures s in Subjects(ms) <==> !Inherited(s) && exists i :: 0 <= i < |ms| && ms[i].subject == s
  {
    var c := SubjectColumn(ms);
    if s in c {
      var i := Seqs.FirstIndex(c, s);
      assert ms[i].subject == s;
    }
  }

  lemma SubjectsAppend(ms: seq<Mark>, m: Mark)
    ensures SubjectColumn(ms + [m]) == SubjectColumn(ms) + [m.subject]
    ensures KeyColumn(ms + [m]) == KeyColumn(ms) + (if Inherited(m.subject) then [] else [m.subject])
    ensures Subjects(ms + [m]) ==
      if Inherited(m.subject) || m.subject in Subjects(ms) then Subjects(ms) else Subjects(ms) + [m.subject]
  {
    assert (ms + [m])[..|ms|] == ms;
    var c := KeyColumn(ms);
    if !Inherited(m.subject) {
      assert (c + [m.subject])[..|c|] == c;
    } else {
      assert c + [] == c;
    }
  }

  /** A mark of a subject already listed, or of an inherited one, adds no subject. */
  lemma SubjectsKeep(ms: seq<Mark>, m: Mark)
    requires Inherited(m.subject) || m.subject in Subjects(ms)
    ensures Subjects(ms + [m]) == Subjects(ms)
  {
    SubjectsAppend(ms, m);
  }

  /** The first mark of an own subject appends that subject. */
  lemma SubjectsGrow(ms: seq<Mark>, m: Mark)
    requires !Inherited(m.subject) && m.subject !in Subjects(ms)
    ensures Subjects(ms + [m]) == Subjects(ms) + [m.subject]
  {
    SubjectsAppend(ms, m);
  }

  /** The marks of one subject, in order. */
  function OfSubject(ms: seq<Mark>, s: string): (r: seq<Mark>)
    ensures |r| <= |ms|
    ensures forall i :: 0 <= i < |r| ==> r[i].subject == s
    ensures AllInBounds(ms) ==> AllInBounds(r)
    ensures r == [] <==> s !in SubjectColumn(ms)
  {
    if ms == [] then []
    else
      var front := ms[..|ms| - 1];
      var last := ms[|ms| - 1];
      assert forall i :: 0 <= i < |front| ==> front[i] == ms[i];
      assert SubjectColumn(ms) == SubjectColumn(front) + [last.subject];
      if last.subject == s then OfSubject(front, s) + [last] else OfSubject(front, s)
  }

  lemma OfSubjectAppend(ms: seq<Mark>, m: Mark, s: string)
    ensures OfSubject(ms + [m], s) == if m.subject == s then OfSubject(ms, s) + [m] else OfSubject(ms, s)
  {
    assert (ms + [m])[..|ms|] == ms;
  }

  /** One entry of `subjectMap`: the subject, its two sums and its number of exams. */
  datatype Tally = Tally(subject: string, totalMarksObtained: real, totalMaxMarks: real, examCount: nat)

  function TallyOf(ms: seq<Mark>, s: string): (t: Tally)
    ensures t.subject == s && t.examCount == |OfSubject(ms, s)|
    ensures t.totalMarksObtained == ObtainedSum(OfSubject(ms, s)) && t.totalMaxMarks == MaxSum(OfSubject(ms, s))
    ensures AllInBounds(ms) && s in Subjects(ms) ==> t.examCount >= 1 && t.totalMaxMarks >= 1.0
  {
    var g := OfSubject(ms, s);
    if AllInBounds(ms) then MaxSumAtLeastCount(g); Tally(s, ObtainedSum(g), MaxSum(g), |g|)
    else Tally(s, ObtainedSum(g), MaxSum(g), |g|)
  }

  /** What one loop step does to a tally. */
  function Add(t: Tally, m: Mark): Tally
  {
    Tally(t.subject, t.totalMarksObtained + m.marksObtained, t.totalMaxMarks + m.totalMarks, t.examCount + 1)
  }

  lemma TallyAppend(ms: seq<Mark>, m: Mark, s: string)
    ensures TallyOf(ms + [m], s) == if m.subject == s then Add(TallyOf(ms, s), m) else TallyOf(ms, s)
  {
    OfSubjectAppend(ms, m, s);
    if m.subject == s {
      SumsAppend(OfSubject(ms, s), m);
    }
  }

  /** One element of `subjectWisePerformance`: a tally and its percentage, before `toFixed`. */
  datatype SubjectPerformance = SubjectPerformance(
    subject: string,
    totalMarksObtained: real,
    totalMaxMarks: real,
    examCount: nat,
    percentage: real)

  /** A tally with its percentage: the sums weighted by their totals, not a mean of exam percentages. */
  function Perform(t: Tally): (r: SubjectPerformance)
    requires t.totalMaxMarks > 0.0
    ensures r.subject == t.subject && r.examCount == t.examCount
    ensures r.totalMarksObtained == t.totalMarksObtained && r.totalMaxMarks == t.totalMaxMarks
    ensures r.percentage * t.totalMaxMarks == t.totalMarksObtained * 100.0
  {
    SubjectPerformance(t.subject, t.totalMarksObtained, t.totalMaxMarks, t.examCount,
                       Percentage(t.totalMarksObtained, t.totalMaxMarks))
  }

  /** The `map` over `Object.values(subjectMap)`, for the subjects `subs`. */
  function Breakdown(ms: seq<Mark>, subs: seq<string>): (r: seq<SubjectPerformance>)
    requires AllInBounds(ms)
    requires forall k :: 0 <= k < |subs| ==> subs[k] in Subjects(ms)
    ensures |r| == |subs|
    ensures forall k :: 0 <= k < |subs| ==> r[k] == Perform(TallyOf(ms, subs[k]))
  {
    seq(|subs|, k requires 0 <= k < |subs| => Perform(TallyOf(ms, subs[k])))
  }

  lemma BreakdownAppend(ms: seq<Mark>, subs: seq<string>, s: string)
    requires AllInBounds(ms)
    requires forall k :: 0 <= k < |subs| ==> subs[k] in Subjects(ms)
    requires s in Subjects(ms)
    ensures Breakdown(ms, subs + [s]) == Breakdown(ms, subs) + [Perform(TallyOf(ms, s))]
  {
    assert forall k :: 0 <= k < |subs| ==> (subs + [s])[k] == subs[k];
  }

  /**
   * What the loop knows of `subjectMap` after the marks `done`: its keys, in
   * the order they were inserted, and the tally of each.
   */
  ghost predicate MapMatches(done: seq<Mark>, subjectMap: map<string, Tally>, order: seq<string>)
  {
    order == Subjects(done) && KeysMatch(subjectMap, order) && TalliesMatch(done, subjectMap)
  }

  /** The map's keys are the subjects of `order`. */
  ghost predicate KeysMatch(subjectMap: map<string, Tally>, order: seq<string>)
  {
    forall s :: s in subjectMap <==> s in order
  }

  /** Each entry of the map is the tally of its subject over the marks `done`. */
  ghost predicate TalliesMatch(done: seq<Mark>, subjectMap: map<string, Tally>)
  {
    forall s :: s in subjectMap ==> subjectMap[s] == TallyOf(done, s)
  }

  /** The tally a loop step starts from is the tally of the marks seen so far. */
  lemma StepStart(done: seq<Mark>, subjectMap: map<string, Tally>, order: seq<string>, k: string)
    requires MapMatches(done, subjectMap, order) && !Inherited(k)
    ensures (if k in subjectMap then subjectMap[k] else Tally(k, 0.0, 0.0, 0)) == TallyOf(done, k)
  {
    if k !in subjectMap {
      assert k !in Subjects(done);
      assert OfSubject(done, k) == [];
    }
  }

  /** After one loop step every tally in the map is the tally of the marks seen. */
  lemma StepTallies(done: seq<Mark>, m: Mark, before: map<string, Tally>, after: map<string, Tally>, t: Tally)
    requires TalliesMatch(done, before)
    requires t == TallyOf(done, m.subject)
    requires after == before[m.subject := Add(t, m)]
    ensures TalliesMatch(done + [m], after)
  {
    forall s | s in after
      ensures after[s] == TallyOf(done + [m], s)
    {
      TallyAppend(done, m, s);
    }
  }

  /** A mark of an inherited subject leaves every own tally as it was. */
  lemma StepSkips(done: seq<Mark>, m: Mark, subjectMap: map<string, Tally>)
    requires m.subject !in subjectMap && TalliesMatch(done, subjectMap)
    ensures TalliesMatch(done + [m], subjectMap)
  {
    forall s | s in subjectMap
      ensures subjectMap[s] == TallyOf(done + [m], s)
    {
      TallyAppend(done, m, s);
    }
  }

  /** Updating the entry of a key already in the map keeps its keys. */
  lemma KeysKeep(subjectMap: map<string, Tally>, order: seq<string>, k: string, v: Tally)
    requires KeysMatch(subjectMap, order) && k in subjectMap
    ensures KeysMatch(subjectMap[k := v], order)
  {
  }

  /** Adding a new key to the map and appending it to the order keeps the keys matched. */
  lemma KeysGrow(subjectMap: map<string, Tally>, order: seq<string>, k: string, v: Tally)
    requires KeysMatch(subjectMap, order) && k !in subjectMap
    ensures KeysMatch(subjectMap[k := v], order + [k])
  {
  }

  /** A loop step on a mark of an inherited subject changes neither the map nor the order. */
  lemma SkipStep(done: seq<Mark>, m: Mark, subjectMap: map<string, Tally>, order: seq<string>)
    requires MapMatches(done, subjectMap, order) && Inherited(m.subject)
    ensures MapMatches(done + [m], subjectMap, order)
  {
    SubjectsKeep(done, m);
    assert m.subject !in subjectMap;
    StepSkips(done, m, subjectMap);
  }

  /** A loop step on a mark of an own subject already in the map: its tally grows, the order stays. */
  lemma SeenStep(done: seq<Mark>, m: Mark, subjectMap: map<string, Tally>, order: seq<string>)
    requires MapMatches(done, subjectMap, order) && !Inherited(m.subject) && m.subject in subjectMap
    ensures MapMatches(done + [m], subjectMap[m.subject := Add(subjectMap[m.subject], m)], order)
  {
    var k := m.subject;
    var after := subjectMap[k := Add(subjectMap[k], m)];
    assert k in order;
    SubjectsKeep(done, m);
    KeysKeep(subjectMap, order, k, Add(subjectMap[k], m));
    StepTallies(done, m, subjectMap, after, subjectMap[k]);
  }

  /** A loop step on the first mark of an own subject: an empty tally grows by it, the subject joins the order. */
  lemma FirstStep(done: seq<Mark>, m: Mark, subjectMap: map<string, Tally>, order: seq<string>)
    requires MapMatches(done, subjectMap, order) && !Inherited(m.subject) && m.subject !in subjectMap
    ensures MapMatches(done + [m], subjectMap[m.subject := Add(Tally(m.subject, 0.0, 0.0, 0), m)],
                       order + [m.subject])
  {
    var k := m.subject;
    var after := subjectMap[k := Add(Tally(k, 0.0, 0.0, 0), m)];
    SubjectsGrow(done, m);
    KeysGrow(subjectMap, order, k, Add(Tally(k, 0.0, 0.0, 0), m));
    StepStart(done, subjectMap, order, k);
    StepTallies(done, m, subjectMap, after, Tally(k, 0.0, 0.0, 0));
  }

  // ---------------------------------------------------------------- the statistics report

  /** The `data` object of `GET /api/marks/statistics/:studentId`, before `toFixed`. */
  datatype Stats = Stats(
    totalExams: nat,
    averagePercentage: real,
    highestScore: real,
    lowestScore: real,
    subjectWisePerformance: seq<SubjectPerformance>)

  /** The report for a student without marks. */
  const NoMarks := Stats(0, 0.0, 0.0, 0.0, [])

  /** The report: exam count, mean percentage, running extremes and the per-subject breakdown. */
  function StatisticsOf(ms: seq<Mark>): (st: Stats)
    requires AllInBounds(ms)
    ensures st.totalExams == |ms|
    ensures ms == [] ==> st == NoMarks
    ensures ms != [] ==> st.lowestScore <= st.averagePercentage <= st.highestScore
    ensures ms != [] ==> forall i :: 0 <= i < |ms| ==>
      st.lowestScore <= MarkPercentage(ms[i]) <= st.highestScore
    ensures |st.subjectWisePerformance| == |Subjects(ms)|
  {
    if ms == [] then NoMarks
    else
      var ps := Percentages(ms);
      AverageBetween(ps);
      Stats(|ms|, Mean(ps), Highest(ps), Lowest(ps), Breakdown(ms, Subjects(ms)))
  }

  /** One step of the `map`: the next subject's performance extends the breakdown. */
  lemma BreakdownStep(ms: seq<Mark>, order: seq<string>, j: nat)
    requires AllInBounds(ms) && order == Subjects(ms) && j < |order|
    ensures Breakdown(ms, order[..j + 1]) == Breakdown(ms, order[..j]) + [Perform(TallyOf(ms, order[j]))]
  {
    assert order[..j + 1] == order[..j] + [order[j]];
    BreakdownAppend(ms, order[..j], order[j]);
  }

  /** `Object.values(subjectMap).map(...)`: each tally, in insertion order, with its percentage. */
  method SubjectWise(ms: seq<Mark>, subjectMap: map<string, Tally>, order: seq<string>)
    returns (subjectWisePerformance: seq<SubjectPerformance>)
    requires AllInBounds(ms) && MapMatches(ms, subjectMap, order)
    ensures subjectWisePerformance == Breakdown(ms, Subjects(ms))
  {
    subjectWisePerformance := [];
    for j := 0 to |order|
      invariant subjectWisePerformance == Breakdown(ms, order[..j])
    {
      BreakdownStep(ms, order, j);
      assert subjectMap[order[j]] == TallyOf(ms, order[j]);
      subjectWisePerformance := subjectWisePerformance + [Perform(subjectMap[order[j]])];
    }
    assert order[..|order|] == order;
  }

  /** The `forEach` loop of `GET /api/marks/statistics/:studentId`, then the report. */
  method ComputeStatistics(ms: seq<Mark>) returns (st: Stats)
    requires AllInBounds(ms)
    ensures st == StatisticsOf(ms)
  {
    if |ms| == 0 {
      return NoMarks;
    }
    var totalPercentage := 0.0;
    var highest := 0.0;
    var lowest := 100.0;
    var subjectMap: map<string, Tally> := map[];
    var order: seq<string> := [];
    for i := 0 to |ms|
      invariant AllInBounds(ms[..i])
      invariant totalPercentage == Sum(Percentages(ms[..i]))
      invariant highest == Highest(Percentages(ms[..i]))
      invariant lowest == Lowest(Percentages(ms[..i]))
      invariant MapMatches(ms[..i], subjectMap, order)
    {
      var m := ms[i];
      Seqs.PrefixExtends(ms, i);
      PrefixInBounds(ms, i + 1);
      assert Percentages(ms[..i + 1]) == Percentages(ms[..i]) + [MarkPercentage(m)];
      FoldsAppend(Percentages(ms[..i]), MarkPercentage(m));

      var percentage := MarkPercentage(m);
      totalPercentage := totalPercentage + percentage;
      if percentage > highest {
        highest := percentage;
      }
      if percentage < lowest {
        lowest := percentage;
      }
      subjectMap, order := Record(ms[..i], m, subjectMap, order);
    }
    assert ms[..|ms|] == ms;

    var subjectWisePerformance := SubjectWise(ms, subjectMap, order);
    var n := |ms| as real;
    st := Stats(|ms|, totalPercentage / n, highest, lowest, subjectWisePerformance);
  }

  // ---------------------------------------------------------------- properties of the report

  /** The subjects the breakdown lists, in order. */
  function Names(ps: seq<SubjectPerformance>): (r: seq<string>)
    ensures |r| == |ps| && forall k :: 0 <= k < |ps| ==> r[k] == ps[k].subject
  {
    if ps == [] then [] else Names(ps[..|ps| - 1]) + [ps[|ps| - 1].subject]
  }

  /**
   * The breakdown lists every subject that has a mark and is not inherited,
   * each once, in the order of the subjects' first marks.
   */
  lemma BreakdownListsEachSubjectOnce(ms: seq<Mark>)
    requires AllInBounds(ms)
    ensures var names := Names(StatisticsOf(ms).subjectWisePerformance);
      && Seqs.NoDuplicates(names)
      && (forall i :: 0 <= i < |ms| && !Inherited(ms[i].subject) ==> ms[i].subject in names)
      && (forall s :: s in names ==> !Inherited(s) && exists i :: 0 <= i < |ms| && ms[i].subject == s)
  {
    var names := Names(StatisticsOf(ms).subjectWisePerformance);
    assert names == Subjects(ms);
    SubjectsOnce(ms);
    forall i | 0 <= i < |ms| && !Inherited(ms[i].subject) ensures ms[i].subject in names {
      SubjectsAreTheMarksSubjects(ms, ms[i].subject);
    }
    forall s | s in names ensures !Inherited(s) && exists i :: 0 <= i < |ms| && ms[i].subject == s {
      SubjectsAreTheMarksSubjects(ms, s);
    }
  }

  /** Sum of the exam counts of a breakdown. */
  function ExamCountTotal(ps: seq<SubjectPerformance>): nat
  {
    if ps == [] then 0 else ExamCountTotal(ps[..|ps| - 1]) + ps[|ps| - 1].examCount
  }

  /** Sum, over the subjects `subs`, of the number of marks of each. */
  function CountSum(ms: seq<Mark>, subs: seq<string>): nat
  {
    if subs == [] then 0 else CountSum(ms, subs[..|subs| - 1]) + |OfSubject(ms, subs[|subs| - 1])|
  }

  lemma {:induction false} CountSumAppendMark(ms: seq<Mark>, m: Mark, subs: seq<string>)
    requires Seqs.NoDuplicates(subs)
    ensures CountSum(ms + [m], subs) == CountSum(ms, subs) + (if m.subject in subs then 1 else 0)
  {
    if subs != [] {
      var front, last := subs[..|subs| - 1], subs[|subs| - 1];
      Seqs.SplitLast(subs);
      assert Seqs.NoDuplicates(front);
      assert m.subject in front ==> m.subject != last;
      CountSumAppendMark(ms, m, front);
      OfSubjectAppend(ms, m, last);
    }
  }

  lemma {:induction false} CountSumAppendSubject(ms: seq<Mark>, subs: seq<string>, s: string)
    ensures CountSum(ms, subs + [s]) == CountSum(ms, subs) + |OfSubject(ms, s)|
  {
    assert (subs + [s])[..|subs|] == subs;
  }

  /** Over all own subjects, the numbers of marks per subject add up to the number of marks of those subjects. */
  lemma {:induction false} CountSumCoversMarks(ms: seq<Mark>)
    ensures CountSum(ms, Subjects(ms)) == |KeyColumn(ms)|
  {
    if ms != [] {
      var front, m := ms[..|ms| - 1], ms[|ms| - 1];
      Seqs.SplitLast(ms);
      CountSumCoversMarks(front);
      SubjectsAppend(front, m);
      SubjectsOnce(front);
      CountSumAppendMark(front, m, Subjects(front));
      if !Inherited(m.subject) && m.subject !in Subjects(front) {
        CountSumAppendSubject(ms, Subjects(front), m.subject);
        OfSubjectAppend(front, m, m.subject);
        assert OfSubject(front, m.subject) == [];
      }
    }
  }

  lemma {:induction false} BreakdownCounts(ms: seq<Mark>, subs: seq<string>)
    requires AllInBounds(ms)
    requires forall k :: 0 <= k < |subs| ==> subs[k] in Subjects(ms)
    ensures ExamCountTotal(Breakdown(ms, subs)) == CountSum(ms, subs)
  {
    if subs != [] {
      var front, last := subs[..|subs| - 1], subs[|subs| - 1];
      Seqs.SplitLast(subs);
      BreakdownCounts(ms, front);
      BreakdownAppend(ms, front, last);
      var b := Breakdown(ms, subs);
      assert b[..|b| - 1] == Breakdown(ms, front);
    }
  }

  /**
   * Every mark of an own subject is counted in exactly one subject: the exam
   * counts add up to the number of those marks, and so to `totalExams` when no
   * subject is inherited.
   */
  lemma ExamCountsAddUp(ms: seq<Mark>)
    requires AllInBounds(ms)
    ensures ExamCountTotal(StatisticsOf(ms).subjectWisePerformance) == |KeyColumn(ms)|
    ensures (forall i :: 0 <= i < |ms| ==> !Inherited(ms[i].subject)) ==>
      ExamCountTotal(StatisticsOf(ms).subjectWisePerformance) == StatisticsOf(ms).totalExams
  {
    if ms != [] {
      BreakdownCounts(ms, Subjects(ms));
      CountSumCoversMarks(ms);
    }
  }

  /** A student whose one mark is in the subject `constructor`: one exam, and no subject in the breakdown. */
  lemma InheritedSubjectUncounted()
    ensures var ms := [Mark(1, 1, "constructor", 5.0, 10.0, Quiz, 0, None)];
      && AllInBounds(ms)
      && StatisticsOf(ms).totalExams == 1
      && StatisticsOf(ms).subjectWisePerformance == []
  {
    var ms := [Mark(1, 1, "constructor", 5.0, 10.0, Quiz, 0, None)];
    assert Inherited(ms[0].subject);
    assert ms == [] + [ms[0]];
    SubjectsAppend([], ms[0]);
    assert Subjects(ms) == [];
  }

  /** Two exams in subject `s`: 10 of 10 and 0 of 90. */
  function WeightedExample(s: string): (ms: seq<Mark>)
    ensures |ms| == 2 && ms[0].subject == s && ms[1].subject == s
  {
    [Mark(1, 1, s, 10.0, 10.0, Quiz, 0, None), Mark(1, 1, s, 0.0, 90.0, Final, 0, None)]
  }

  lemma WeightedExampleAverage(s: string)
    ensures AllInBounds(WeightedExample(s))
    ensures Sum(Percentages(WeightedExample(s))) == 100.0
  {
    var ms := WeightedExample(s);
    var a, b := ms[0], ms[1];
    assert AllInBounds(ms);
    assert ms[..1] == [a] && [a][..0] == [];
    assert MarkPercentage(a) == 100.0 && MarkPercentage(b) == 0.0;
    var ps := Percentages(ms);
    assert ps == [100.0, 0.0];
    assert ps[..1] == [100.0] && [100.0][..0] == [];
    assert Sum([100.0]) == 100.0;
  }

  lemma WeightedExampleSubjects(s: string)
    requires !Inherited(s)
    ensures Subjects(WeightedExample(s)) == [s]
    ensures OfSubject(WeightedExample(s), s) == WeightedExample(s)
  {
    var ms := WeightedExample(s);
    var a, b := ms[0], ms[1];
    assert [] + [a] == [a] && ms == [a] + [b];
    assert SubjectColumn([]) == [] && Subjects([]) == [];
    SubjectsAppend([], a);
    SubjectsAppend([a], b);
    OfSubjectAppend([], a, s);
    OfSubjectAppend([a], b, s);
  }

  lemma WeightedExampleSums(s: string)
    ensures ObtainedSum(WeightedExample(s)) == 10.0 && MaxSum(WeightedExample(s)) == 100.0
  {
    var ms := WeightedExample(s);
    var a := ms[0];
    SumsAppend([], a);
    assert [] + [a] == [a] && ms == [a] + [ms[1]];
    SumsAppend([a], ms[1]);
  }

  lemma WeightedExampleTally(s: string)
    requires !Inherited(s)
    ensures AllInBounds(WeightedExample(s))
    ensures Subjects(WeightedExample(s)) == [s]
    ensures TallyOf(WeightedExample(s), s) == Tally(s, 10.0, 100.0, 2)
  {
    assert AllInBounds(WeightedExample(s));
    WeightedExampleSubjects(s);
    WeightedExampleSums(s);
  }

  /**
   * The subject percentage weighs exams by their totals, the average does
   * not: 10 of 10 and 0 of 90 in one subject average 50 but make 10 percent.
   */
  lemma SubjectPercentageIsWeighted(s: string)
    requires !Inherited(s)
    ensures AllInBounds(WeightedExample(s))
    ensures StatisticsOf(WeightedExample(s)).averagePercentage == 50.0
    ensures |StatisticsOf(WeightedExample(s)).subjectWisePerformance| == 1
    ensures StatisticsOf(WeightedExample(s)).subjectWisePerformance[0].percentage == 10.0
  {
    var ms := WeightedExample(s);
    WeightedExampleAverage(s);
    WeightedExampleTally(s);
    SingleSubjectStatistics(ms, s, Tally(s, 10.0, 100.0, 2));
  }

  /** The statistics of marks that all fall under one own subject: the mean and that subject's one performance. */
  lemma SingleSubjectStatistics(ms: seq<Mark>, s: string, t: Tally)
    requires AllInBounds(ms) && Subjects(ms) == [s] && TallyOf(ms, s) == t
    ensures ms != []
    ensures StatisticsOf(ms).averagePercentage == Mean(Percentages(ms))
    ensures StatisticsOf(ms).subjectWisePerformance == [Perform(t)]
  {
    assert s in SubjectColumn(ms);
    var bd := Breakdown(ms, Subjects(ms));
    assert |bd| == 1 && bd[0] == Perform(t);
  }
}
