/**
 * The two JavaScript conversions from text to number that the mark form
 * relies on, restricted to decimal notation: `Number(s)`, which accepts a
 * string only when the whole of it (blank ends aside) is a number, and
 * `parseFloat(s)`, which reads the longest numeric prefix. `None` stands for
 * `NaN`.
 */
module JsNumber {
  import opened Prelude
  import Text
  import MarkModel

  predicate AllDigits(s: string)
  {
    forall i :: 0 <= i < |s| ==> Text.IsDigit(s[i])
  }

  function DigitValue(c: char): nat
    requires Text.IsDigit(c)
  {
    c as int - '0' as int
  }

  /** The value of a run of decimal digits, most significant first. */
  function DigitsValue(s: string): nat
    requires AllDigits(s)
  {
    if s == [] then 0 else DigitsValue(s[..|s| - 1]) * 10 + DigitValue(s[|s| - 1])
  }

  function Pow10(k: nat): (p: nat)
    ensures p >= 1
  {
    if k == 0 then 1 else 10 * Pow10(k - 1)
  }

  /** A run of `k` digits stays below `10^k`, so a fraction part is below one. */
  lemma {:induction false} DigitsBelowPow10(s: string)
    requires AllDigits(s)
    ensures DigitsValue(s) < Pow10(|s|)
  {
    if s != [] {
      DigitsBelowPow10(s[..|s| - 1]);
    }
  }

  /** Position of the first `.` in `s`, or `|s|` when there is none. */
  function DotIndex(s: string): (k: nat)
    ensures k <= |s|
    ensures '.' !in s[..k]
    ensures k < |s| ==> s[k] == '.'
  {
    if s == [] || s[0] == '.' then 0
    else
      var k := DotIndex(s[1..]);
      assert s[..k + 1] == [s[0]] + s[1..][..k];
      1 + k
  }

  /** `digits`, `digits.`, `digits.digits` or `.digits`: at least one digit, at most one point. */
  predicate IsUnsignedDecimal(s: string)
  {
    var k := DotIndex(s);
    && AllDigits(s[..k])
    && (k < |s| ==> AllDigits(s[k + 1..]))
    && (k > 0 || k + 1 < |s|)
  }

  function UnsignedValue(s: string): real
    requires IsUnsignedDecimal(s)
  {
    var k := DotIndex(s);
    var whole := DigitsValue(s[..k]) as real;
    if k < |s| then whole + DigitsValue(s[k + 1..]) as real / Pow10(|s| - k - 1) as real else whole
  }

  predicate HasSign(t: string)
  {
    t != [] && (t[0] == '-' || t[0] == '+')
  }

  /** A decimal literal, optionally signed. */
  predicate IsDecimal(t: string)
  {
    if HasSign(t) then IsUnsignedDecimal(t[1..]) else IsUnsignedDecimal(t)
  }

  function DecimalValue(t: string): real
    requires IsDecimal(t)
  {
    if HasSign(t) then
      if t[0] == '-' then -UnsignedValue(t[1..]) else UnsignedValue(t[1..])
    else UnsignedValue(t)
  }

  /**
   * `Number(s)`: blank text is zero, otherwise the trimmed text must be a
   * decimal literal as a whole.
   */
  function Number(s: string): Option<real>
  {
    var t := Text.Trim(s);
    if t == "" then Some(0.0)
    else if IsDecimal(t) then Some(DecimalValue(t))
    else None
  }

  /** Length of the longest prefix of `t[..n]` that is a decimal literal, 0 when there is none. */
  function PrefixLength(t: string, n: nat): (k: nat)
    requires n <= |t|
    ensures k <= n
    ensures 0 < k ==> IsDecimal(t[..k])
    ensures forall j :: k < j <= n ==> !IsDecimal(t[..j])
  {
    if n == 0 then 0
    else if IsDecimal(t[..n]) then n
    else PrefixLength(t, n - 1)
  }

  /** `parseFloat(s)`: leading blanks are skipped and the longest numeric prefix is read. */
  function ParseFloat(s: string): (r: Option<real>)
    ensures var t := s[Text.LeadingSpaces(s)..];
      r.Some? <==> exists k :: 0 < k <= |t| && IsDecimal(t[..k])
  {
    var t := s[Text.LeadingSpaces(s)..];
    var k := PrefixLength(t, |t|);
    if k == 0 then None else Some(DecimalValue(t[..k]))
  }

  /** A decimal literal is negative only when it starts with a minus sign. */
  lemma DecimalSign(t: string)
    requires IsDecimal(t)
    ensures t[0] != '-' ==> DecimalValue(t) >= 0.0
    ensures t[0] == '-' ==> DecimalValue(t) <= 0.0
  {
  }

  /** The fraction part of an unsigned literal never reaches the next whole number. */
  lemma UnsignedBetweenWholes(s: string)
    requires IsUnsignedDecimal(s)
    ensures var k := DotIndex(s);
      DigitsValue(s[..k]) as real <= UnsignedValue(s) < DigitsValue(s[..k]) as real + 1.0
  {
    var k := DotIndex(s);
    if k < |s| {
      DigitsBelowPow10(s[k + 1..]);
      FractionBelowOne(DigitsValue(s[k + 1..]) as real, Pow10(|s| - k - 1) as real);
    }
  }

  /** A quotient of a smaller by a larger positive number lies in [0, 1). */
  lemma FractionBelowOne(a: real, b: real)
    requires 0.0 <= a < b
    ensures 0.0 <= a / b < 1.0
  {
    var q := a / b;
    assert q * b == a;
    MarkModel.ScaleStrict(q, 0.0, b);
    MarkModel.ScaleStrict(q, 1.0, b);
  }

  /** On a trimmed decimal literal the two conversions agree. */
  lemma ParseFloatAgreesWithNumber(t: string)
    requires IsDecimal(t)
    ensures ParseFloat(t) == Number(t)
  {
    assert !Text.IsSpace(t[0]);
    assert t[Text.LeadingSpaces(t)..] == t;
    assert t[..|t|] == t;
    var k := DotIndex(t);
    assert !Text.IsSpace(t[|t| - 1]) by {
      if HasSign(t) {
        var u := t[1..];
        var j := DotIndex(u);
        assert u[|u| - 1] == t[|t| - 1];
        if j < |u| && j + 1 < |u| {
          assert u[|u| - 1] == u[j + 1..][|u| - j - 2];
        } else if j < |u| {
          assert u[|u| - 1] == '.';
        } else {
          assert u[|u| - 1] == u[..j][|u| - 1];
        }
      } else if k < |t| && k + 1 < |t| {
        assert t[|t| - 1] == t[k + 1..][|t| - k - 2];
      } else if k < |t| {
        assert t[|t| - 1] == '.';
      } else {
        assert t[|t| - 1] == t[..k][|t| - 1];
      }
    }
  }

  /** The value of a plain whole number. */
  lemma WholeNumberExample()
    ensures Number("45") == Some(45.0)
  {
    assert DigitsValue("4") == 4 by { assert "4"[..0] == ""; }
    assert DigitsValue("45") == 45 by { assert "45"[..1] == "4"; }
    assert DotIndex("45") == 2 by { assert "45"[1..] == "5"; assert "5"[1..] == ""; }
    assert "45"[..2] == "45";
  }

  /** Blanks around a decimal fraction are ignored. */
  lemma PaddedFractionExample()
    ensures Number(" 4.5 ") == Some(4.5)
  {
    PaddedFractionTrims();
    FractionValue();
  }

  lemma PaddedFractionTrims()
    ensures Text.Trim(" 4.5 ") == "4.5"
  {
    assert Text.ContentEnd(" 4.5 ") == 4 by {
      assert " 4.5 "[..4] == " 4.5";
    }
    assert " 4.5 "[..4] == " 4.5";
    assert Text.LeadingSpaces(" 4.5") == 1 by { assert " 4.5"[1..] == "4.5"; }
    assert " 4.5"[1..] == "4.5";
  }

  lemma FractionValue()
    ensures IsDecimal("4.5") && DecimalValue("4.5") == 4.5
  {
    assert DotIndex("4.5") == 1 by { assert "4.5"[1..] == ".5"; }
    assert "4.5"[..1] == "4" && "4.5"[2..] == "5";
    assert DigitsValue("4") == 4 by { assert "4"[..0] == ""; }
    assert DigitsValue("5") == 5 by { assert "5"[..0] == ""; }
  }

  /** `parseFloat("0")` is the number 0. */
  lemma ZeroExample()
    ensures ParseFloat("0") == Some(0.0)
  {
    assert Text.LeadingSpaces("0") == 0;
    assert "0"[0..] == "0";
    assert DotIndex("0") == 1 by { assert "0"[1..] == ""; }
    assert "0"[..1] == "0";
    assert DigitsValue("0") == 0 by { assert "0"[..0] == ""; }
  }

  /** A lone sign is not a number. */
  lemma LoneSignExample()
    ensures Number("-") == None
  {
    assert Text.Trim("-") == "-";
    assert "-"[1..] == "";
  }

  /** Trailing letters make `Number` fail while `parseFloat` reads the digits before them. */
  lemma TrailingLetterExample()
    ensures Number("4a") == None
    ensures ParseFloat("4a") == Some(4.0)
  {
    assert Text.Trim("4a") == "4a";
    assert DotIndex("4a") == 2 by { assert "4a"[1..] == "a"; assert "a"[1..] == ""; }
    assert !AllDigits("4a"[..2]) by { assert "4a"[..2][1] == 'a'; }
    assert Text.LeadingSpaces("4a") == 0;
    assert "4a"[0..] == "4a";
    assert "4a"[..2] == "4a";
    assert "4a"[..1] == "4";
    assert DotIndex("4") == 1 by { assert "4"[1..] == ""; }
    assert "4"[..1] == "4";
    assert DigitsValue("4") == 4 by { assert "4"[..0] == ""; }
  }
}
