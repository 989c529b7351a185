/**
 * Sequence operations that the JavaScript code gets from its standard library:
 * `Array.prototype.filter` and `[...new Set(xs)]`.
 */
module Seqs {

  /** `r` is `s` with some elements deleted and the rest kept in order. */
  predicate IsSubsequence<T(==,!new)>(r: seq<T>, s: seq<T>)
    decreases |s|
  {
    if r == [] then true
    else if s == [] then false
    else if r[0] == s[0] then IsSubsequence(r[1..], s[1..])
    else IsSubsequence(r, s[1..])
  }

  /** No element occurs twice. */
  predicate NoDuplicates<T(==,!new)>(s: seq<T>)
  {
    forall i, j :: 0 <= i < j < |s| ==> s[i] != s[j]
  }

  /** `s.filter(p)`: the elements of `s` that satisfy `p`, in their original order. */
  function Filter<T(==,!new)>(s: seq<T>, p: T -> bool): (r: seq<T>)
    ensures |r| <= |s|
    ensures forall x :: x in r <==> x in s && p(x)
    ensures IsSubsequence(r, s)
    ensures forall x :: multiset(r)[x] == if p(x) then multiset(s)[x] else 0
  {
    if s == [] then []
    else
      assert s == [s[0]] + s[1..];
      if p(s[0]) then
        var rest := Filter(s[1..], p);
        assert ([s[0]] + rest)[1..] == rest;
        [s[0]] + rest
      else
        Filter(s[1..], p)
  }

  /** A filter whose predicate holds of every element keeps the whole sequence. */
  lemma {:induction false} FilterKeepsAll<T(!new)>(s: seq<T>, p: T -> bool)
    requires forall x :: x in s ==> p(x)
    ensures Filter(s, p) == s
  {
    if s != [] {
      assert forall x :: x in s[1..] ==> x in s;
      FilterKeepsAll(s[1..], p);
      assert s == [s[0]] + s[1..];
    }
  }

  /** A filter whose predicate holds of no element keeps nothing. */
  lemma {:induction false} FilterKeepsNone<T(!new)>(s: seq<T>, p: T -> bool)
    requires forall x :: x in s ==> !p(x)
    ensures Filter(s, p) == []
  {
    if s != [] {
      assert forall x :: x in s[1..] ==> x in s;
      FilterKeepsNone(s[1..], p);
    }
  }

  /** The index of the first occurrence of `x` in `s`. */
  function FirstIndex<T(==,!new)>(s: seq<T>, x: T): (i: nat)
    requires x in s
    ensures i < |s| && s[i] == x && x !in s[..i]
  {
    if s[0] == x then 0
    else
      var k := FirstIndex(s[1..], x);
      assert s[..k + 1] == [s[0]] + s[1..][..k];
      1 + k
  }

  /** A prefix one longer is the shorter prefix and the next element. */
  lemma PrefixExtends<T>(s: seq<T>, i: nat)
    requires i < |s|
    ensures s[..i + 1] == s[..i] + [s[i]]
  {
  }

  /** A non-empty sequence is its front and its last element. */
  lemma SplitLast<T>(s: seq<T>)
    requires s != []
    ensures s == s[..|s| - 1] + [s[|s| - 1]]
  {
  }

  /** A first occurrence is unique: any index with the defining property is the first index. */
  lemma FirstIndexUnique<T(!new)>(s: seq<T>, x: T, i: nat)
    requires i < |s| && s[i] == x && x !in s[..i]
    ensures FirstIndex(s, x) == i
  {
  }

  /** `[...new Set(s)]`: the distinct elements of `s`, each kept at its first occurrence. */
  function Distinct<T(==,!new)>(s: seq<T>): (r: seq<T>)
    ensures forall x :: x in r <==> x in s
    ensures |r| <= |s|
  {
    if s == [] then []
    else
      var d := Distinct(s[..|s| - 1]);
      assert forall x :: x in s <==> x in s[..|s| - 1] || x == s[|s| - 1] by {
        assert s == s[..|s| - 1] + [s[|s| - 1]];
      }
      if s[|s| - 1] in d then d else d + [s[|s| - 1]]
  }

  /** No element of `s` is kept twice. */
  lemma {:induction false} DistinctNoDuplicates<T(!new)>(s: seq<T>)
    ensures NoDuplicates(Distinct(s))
  {
    if s != [] {
      var d := Distinct(s[..|s| - 1]);
      DistinctNoDuplicates(s[..|s| - 1]);
      var last := s[|s| - 1];
      if last !in d {
        forall i, j | 0 <= i < j < |d| + 1 ensures (d + [last])[i] != (d + [last])[j] {
          if j == |d| {
            assert (d + [last])[i] == d[i];
          }
        }
      }
    }
  }

  /** The distinct elements come in the order of their first occurrences in `s`. */
  lemma {:induction false} DistinctKeepsFirstOccurrenceOrder<T(!new)>(s: seq<T>)
    ensures forall i, j :: 0 <= i < j < |Distinct(s)| ==>
      FirstIndex(s, Distinct(s)[i]) < FirstIndex(s, Distinct(s)[j])
  {
    if s != [] {
      var front := s[..|s| - 1];
      var last := s[|s| - 1];
      var d := Distinct(front);
      DistinctKeepsFirstOccurrenceOrder(front);
      assert s == front + [last];
      // An element of the front keeps its first index when `last` is appended.
      forall x | x in front
        ensures FirstIndex(s, x) == FirstIndex(front, x)
      {
        var k := FirstIndex(front, x);
        assert s[..k] == front[..k];
        FirstIndexUnique(s, x, k);
      }
      if last !in d {
        assert last !in front;
        assert s[..|s| - 1] == front;
        FirstIndexUnique(s, last, |s| - 1);
        forall i, j | 0 <= i < j < |Distinct(s)|
          ensures FirstIndex(s, Distinct(s)[i]) < FirstIndex(s, Distinct(s)[j])
        {
          if j == |d| {
            assert Distinct(s)[i] == d[i];
            assert Distinct(s)[i] in front;
          } else {
            assert Distinct(s)[i] == d[i] && Distinct(s)[j] == d[j];
          }
        }
      }
    }
  }
}
