/**
 * The Student record of `Backend/models/Student.js`: its fields, the
 * normalisations its setters apply, its validators and the `fullName` virtual.
 */
module StudentModel {
  import opened Prelude
  import Text
  import Seqs

  datatype Student = Student(
    firstName: string,
    lastName: string,
    email: string,
    phone: Option<string>,
    batch: Id,
    enrollmentNumber: string,
    dateOfBirth: Option<Date>,
    address: Option<string>,
    isActive: bool)

  function TrimOption(s: Option<string>): Option<string>
  {
    if s.None? then None else Some(Text.Trim(s.value))
  }

  /** The stored form of an email: the `lowercase` and `trim` setters. */
  function NormalizeEmail(email: string): (e: string)
    ensures forall i :: 0 <= i < |e| ==> !Text.IsAsciiUpper(e[i])
    ensures e == [] || (!Text.IsSpace(e[0]) && !Text.IsSpace(e[|e| - 1]))
  {
    Text.LowerTrimCommute(email);
    Text.LowerHasNoUpper(Text.Trim(email));
    Text.Trim(Text.ToLower(email))
  }

  /** The two setters may run in either order. */
  lemma NormalizeEmailEitherOrder(email: string)
    ensures NormalizeEmail(email) == Text.ToLower(Text.Trim(email))
  {
    Text.LowerTrimCommute(email);
  }

  /** A normalised email is its own normal form. */
  lemma NormalizeEmailIdempotent(email: string)
    ensures NormalizeEmail(NormalizeEmail(email)) == NormalizeEmail(email)
  {
    var n := NormalizeEmail(email);
    var t := Text.Trim(email);
    Text.LowerTrimCommute(email);
    Text.LowerIdempotent(t);
    assert Text.ToLower(n) == n;
    Text.TrimIdempotent(Text.ToLower(email));
    assert NormalizeEmail(n) == Text.Trim(Text.ToLower(n));
  }

  predicate IsSeparator(c: char) { c == '.' || c == '-' }

  /**
   * The email `match` pattern `^\w+([\.-]?\w+)*@\w+([\.-]?\w+)*(\.\w{2,3})+$`,
   * read left to right: word characters with single `.` or `-` separators
   * between them, one `@`, then the same for the domain, whose last group is
   * a `.` followed by two or three word characters.
   */
  predicate EmailShape(e: string)
  {
    ScanLocal(e, false)
  }

  /** The part before `@`; `afterWord` says the previous character was a word character. */
  predicate ScanLocal(e: string, afterWord: bool)
  {
    if e == [] then false
    else if Text.IsWordChar(e[0]) then ScanLocal(e[1..], true)
    else if IsSeparator(e[0]) then afterWord && ScanLocal(e[1..], false)
    else e[0] == '@' && afterWord && ScanDomain(e[1..], false, -1)
  }

  /**
   * The part after `@`; `dotRun` counts the word characters since the last
   * `.`, and is -1 while the current group did not start with a `.`.
   */
  predicate ScanDomain(d: string, afterWord: bool, dotRun: int)
  {
    if d == [] then dotRun == 2 || dotRun == 3
    else if Text.IsWordChar(d[0]) then ScanDomain(d[1..], true, if dotRun < 0 then -1 else dotRun + 1)
    else if d[0] == '.' then afterWord && ScanDomain(d[1..], false, 0)
    else if d[0] == '-' then afterWord && ScanDomain(d[1..], false, -1)
    else false
  }

  /** Every character of an accepted domain is a word character or a separator, and it ends in a word character. */
  lemma {:induction false} ScanDomainChars(d: string, afterWord: bool, dotRun: int)
    requires ScanDomain(d, afterWord, dotRun)
    ensures forall i :: 0 <= i < |d| ==> Text.IsWordChar(d[i]) || IsSeparator(d[i])
    ensures d == [] ==> dotRun >= 2
    ensures d != [] ==> Text.IsWordChar(d[|d| - 1])
  {
    if d != [] {
      if Text.IsWordChar(d[0]) {
        ScanDomainChars(d[1..], true, if dotRun < 0 then -1 else dotRun + 1);
      } else {
        ScanDomainChars(d[1..], false, if d[0] == '.' then 0 else -1);
      }
      assert forall i :: 1 <= i < |d| ==> d[i] == d[1..][i - 1];
    }
  }

  /** An accepted address has exactly one `@`, with something on each side. */
  lemma {:induction false} ScanLocalSplits(e: string, afterWord: bool)
    requires ScanLocal(e, afterWord)
    ensures '@' in e
    ensures var at := Seqs.FirstIndex(e, '@'); (at > 0 || afterWord) && '@' !in e[at + 1..] && at + 1 < |e|
  {
    if Text.IsWordChar(e[0]) || IsSeparator(e[0]) {
      ScanLocalSplits(e[1..], Text.IsWordChar(e[0]));
      assert e[0] != '@';
      var k := Seqs.FirstIndex(e[1..], '@');
      assert e[1..][k] == '@' && '@' !in e[1..][..k];
      assert e[..k + 1] == [e[0]] + e[1..][..k];
      Seqs.FirstIndexUnique(e, '@', k + 1);
      assert e[k + 2..] == e[1..][k + 1..];
    } else {
      Seqs.FirstIndexUnique(e, '@', 0);
      ScanDomainChars(e[1..], false, -1);
      assert forall i :: 0 <= i < |e[1..]| ==> e[1..][i] != '@';
    }
  }

  /** An address of the usual form passes the pattern. */
  lemma EmailShapeExample()
    ensures EmailShape("j.doe@ab.in")
  {
    assert ScanDomain("n", true, 1) by { assert "n"[1..] == ""; }
    assert ScanDomain("in", false, 0) by { assert "in"[1..] == "n"; }
    assert ScanDomain(".in", true, -1) by { assert ".in"[1..] == "in"; }
    assert ScanDomain("b.in", true, -1) by { assert "b.in"[1..] == ".in"; }
    assert ScanDomain("ab.in", false, -1) by { assert "ab.in"[1..] == "b.in"; }
    assert ScanLocal("@ab.in", true) by { assert "@ab.in"[1..] == "ab.in"; }
    assert ScanLocal("e@ab.in", true) by { assert "e@ab.in"[1..] == "@ab.in"; }
    assert ScanLocal("oe@ab.in", true) by { assert "oe@ab.in"[1..] == "e@ab.in"; }
    assert ScanLocal("doe@ab.in", false) by { assert "doe@ab.in"[1..] == "oe@ab.in"; }
    assert ScanLocal(".doe@ab.in", true) by { assert ".doe@ab.in"[1..] == "doe@ab.in"; }
    assert "j.doe@ab.in"[1..] == ".doe@ab.in";
  }

  /** The last group may hold at most three characters: a four-letter top-level domain fails. */
  lemma FourLetterDomainRejected()
    ensures !EmailShape("jo@m.info")
  {
    assert !ScanDomain("", true, 4);
    assert !ScanDomain("o", true, 3) by { assert "o"[1..] == ""; }
    assert !ScanDomain("fo", true, 2) by { assert "fo"[1..] == "o"; }
    assert !ScanDomain("nfo", true, 1) by { assert "nfo"[1..] == "fo"; }
    assert !ScanDomain("info", false, 0) by { assert "info"[1..] == "nfo"; }
    assert !ScanDomain(".info", true, -1) by { assert ".info"[1..] == "info"; }
    assert !ScanDomain("m.info", false, -1) by { assert "m.info"[1..] == ".info"; }
    assert !ScanLocal("@m.info", true) by { assert "@m.info"[1..] == "m.info"; }
    assert !ScanLocal("o@m.info", true) by { assert "o@m.info"[1..] == "@m.info"; }
    assert "jo@m.info"[1..] == "o@m.info";
  }

  /** Two separators in a row, or nothing before the `@`, fail. */
  lemma SeparatorRulesRejected()
    ensures !EmailShape("j..d@ab.in")
    ensures !EmailShape("@ab.in")
  {
    assert !ScanLocal(".d@ab.in", false);
    assert !ScanLocal("..d@ab.in", true) by { assert "..d@ab.in"[1..] == ".d@ab.in"; }
    assert "j..d@ab.in"[1..] == "..d@ab.in";
  }

  /** The phone pattern `^[6789]\d{9}$`. */
  predicate PhonePattern(v: string)
  {
    |v| == 10 && v[0] in "6789" && forall i :: 0 <= i < |v| ==> Text.IsDigit(v[i])
  }

  /** The phone validator: an absent or empty phone passes, any other must match the pattern. */
  predicate PhoneValid(phone: Option<string>)
  {
    phone.None? || phone.value == "" || PhonePattern(phone.value)
  }

  /**
   * The validator's message names only 6 and 9 as leading digits, but the
   * pattern also accepts 7 and 8; it rejects a country prefix.
   */
  lemma PhoneExamples()
    ensures PhoneValid(None) && PhoneValid(Some(""))
    ensures PhoneValid(Some("7012345678")) && PhoneValid(Some("8012345678"))
    ensures !PhoneValid(Some("5012345678")) && !PhoneValid(Some("+917012345678"))
    ensures !PhoneValid(Some("701234567"))
  {
    assert !Text.IsDigit('+');
  }

  /** The schema validators of a stored student: required names and enrollment number, email pattern, phone rule. */
  predicate FieldsValid(s: Student)
  {
    && s.firstName != "" && s.lastName != ""
    && EmailShape(s.email)
    && PhoneValid(s.phone)
    && s.enrollmentNumber != ""
  }

  /** The body of `POST /api/students`. */
  datatype StudentRequest = StudentRequest(
    firstName: string,
    lastName: string,
    email: string,
    phone: Option<string>,
    batch: Id,
    enrollmentNumber: string,
    dateOfBirth: Option<Date>,
    address: Option<string>)

  /** The route's own `toLowerCase()` before the setters adds nothing to what they do. */
  lemma RouteLowercaseRedundant(email: string)
    ensures NormalizeEmail(Text.ToLower(email)) == NormalizeEmail(email)
  {
    Text.LowerIdempotent(email);
    Text.LowerTrimCommute(email);
    Text.LowerTrimCommute(Text.ToLower(email));
  }

  /**
   * The document `Student.create` builds: the route lower-cases the email and
   * the setters lower-case and trim it (together, `NormalizeEmail`, by
   * `RouteLowercaseRedundant`), the other setters trim, and `isActive` takes
   * its default.
   */
  function FromRequest(req: StudentRequest): (s: Student)
    ensures s.email == NormalizeEmail(req.email)
    ensures s.firstName == Text.Trim(req.firstName) && s.lastName == Text.Trim(req.lastName)
    ensures s.batch == req.batch && s.enrollmentNumber == req.enrollmentNumber
    ensures s.isActive
  {
    Student(Text.Trim(req.firstName), Text.Trim(req.lastName), NormalizeEmail(req.email),
            TrimOption(req.phone), req.batch, req.enrollmentNumber, req.dateOfBirth,
            TrimOption(req.address), true)
  }

  /** The body of `PUT /api/students/:id`: any subset of the fields. */
  datatype StudentPatch = StudentPatch(
    firstName: Option<string>,
    lastName: Option<string>,
    email: Option<string>,
    phone: Option<string>,
    batch: Option<Id>,
    enrollmentNumber: Option<string>,
    dateOfBirth: Option<Date>,
    address: Option<string>,
    isActive: Option<bool>)

  /** The update validators (`runValidators`), which check only the paths the body sets. */
  predicate PatchValid(p: StudentPatch)
  {
    && (p.firstName.Some? ==> Text.Trim(p.firstName.value) != "")
    && (p.lastName.Some? ==> Text.Trim(p.lastName.value) != "")
    && (p.email.Some? ==> EmailShape(NormalizeEmail(p.email.value)))
    && (p.phone.Some? ==> PhoneValid(TrimOption(p.phone)))
    && (p.enrollmentNumber.Some? ==> p.enrollmentNumber.value != "")
  }

  /** The student after an update: supplied fields replace the stored ones through the setters. */
  function ApplyPatch(s: Student, p: StudentPatch): (r: Student)
    ensures p.batch.None? ==> r.batch == s.batch
    ensures p.batch.Some? ==> r.batch == p.batch.value
    ensures p.email.None? ==> r.email == s.email
    ensures p.email.Some? ==> r.email == NormalizeEmail(p.email.value)
    ensures p.enrollmentNumber.None? ==> r.enrollmentNumber == s.enrollmentNumber
  {
    Student(
      if p.firstName.Some? then Text.Trim(p.firstName.value) else s.firstName,
      if p.lastName.Some? then Text.Trim(p.lastName.value) else s.lastName,
      if p.email.Some? then NormalizeEmail(p.email.value) else s.email,
      if p.phone.Some? then TrimOption(p.phone) else s.phone,
      if p.batch.Some? then p.batch.value else s.batch,
      if p.enrollmentNumber.Some? then p.enrollmentNumber.value else s.enrollmentNumber,
      if p.dateOfBirth.Some? then p.dateOfBirth else s.dateOfBirth,
      if p.address.Some? then TrimOption(p.address) else s.address,
      if p.isActive.Some? then p.isActive.value else s.isActive)
  }

  /** Every other path the body leaves out keeps its stored value; a supplied one passes through its setter. */
  lemma ApplyPatchPaths(s: Student, p: StudentPatch)
    ensures var r := ApplyPatch(s, p);
      && (p.enrollmentNumber.Some? ==> r.enrollmentNumber == p.enrollmentNumber.value)
      && (p.firstName.None? ==> r.firstName == s.firstName)
      && (p.firstName.Some? ==> r.firstName == Text.Trim(p.firstName.value))
      && (p.lastName.None? ==> r.lastName == s.lastName)
      && (p.lastName.Some? ==> r.lastName == Text.Trim(p.lastName.value))
      && (p.phone.None? ==> r.phone == s.phone)
      && (p.phone.Some? ==> r.phone == TrimOption(p.phone))
      && (p.dateOfBirth.None? ==> r.dateOfBirth == s.dateOfBirth)
      && (p.dateOfBirth.Some? ==> r.dateOfBirth == p.dateOfBirth)
      && (p.address.None? ==> r.address == s.address)
      && (p.address.Some? ==> r.address == TrimOption(p.address))
      && (p.isActive.None? ==> r.isActive == s.isActive)
      && (p.isActive.Some? ==> r.isActive == p.isActive.value)
  {
  }

  /** An update that passes its validators leaves a valid student valid. */
  lemma PatchKeepsValid(s: Student, p: StudentPatch)
    requires FieldsValid(s) && PatchValid(p)
    ensures FieldsValid(ApplyPatch(s, p))
  {
    var r := ApplyPatch(s, p);
    assert r.firstName != "" && r.lastName != "" && r.enrollmentNumber != "";
    assert EmailShape(r.email);
    assert PhoneValid(r.phone);
  }

  /** The `fullName` virtual: first name, one space, last name. */
  function FullName(s: Student): (r: string)
    ensures |r| == |s.firstName| + 1 + |s.lastName|
    ensures r[..|s.firstName|] == s.firstName && r[|s.firstName|] == ' '
    ensures r[|s.firstName| + 1..] == s.lastName
  {
    s.firstName + " " + s.lastName
  }

  /** When the first name holds no space, the full name splits back at its first space. */
  lemma FullNameSplits(s: Student)
    requires ' ' !in s.firstName
    ensures Seqs.FirstIndex(FullName(s), ' ') == |s.firstName|
  {
    var r := FullName(s);
    assert r[..|s.firstName|] == s.firstName;
    Seqs.FirstIndexUnique(r, ' ', |s.firstName|);
  }
}
