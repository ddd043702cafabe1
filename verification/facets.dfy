/** The facet option lists: `[...new Set(values)].sort()`, the distinct
    values of a column in ascending order. */
module Facets {
  import opened Seqs
  import opened Text

  /** Ascending without repeats: every earlier element is strictly smaller. */
  predicate StrictlySorted(s: seq<string>) {
    forall i, j :: 0 <= i < j < |s| ==> Less(s[i], s[j])
  }

  /** `[...new Set(xs)]`: the distinct values of `xs`, each kept at its
      first occurrence, so listed in order of first appearance. */
  function Distinct(xs: seq<string>): (r: seq<string>)
    ensures NoDuplicates(r)
    ensures forall y :: y in r <==> y in xs
    ensures IsSubsequence(r, xs)
    ensures forall i, j :: 0 <= i < j < |r| ==> FirstIndex(xs, r[i]) < FirstIndex(xs, r[j])
  {
    if xs == [] then []
    else
      var init := xs[..|xs| - 1];
      var last := xs[|xs| - 1];
      var r := Distinct(init);
      AppendSubsequence(r, init, last);
      assert xs == init + [last];
      FirstOrderAppend(r, init, last);
      if last in r then
        r
      else
        r + [last]
  }

  /** Appending `last` to the input keeps the first-appearance order of the
      values already listed, and a new value appears after all of them. */
  lemma FirstOrderAppend(r: seq<string>, init: seq<string>, last: string)
    requires forall y :: y in r <==> y in init
    requires forall i, j :: 0 <= i < j < |r| ==> FirstIndex(init, r[i]) < FirstIndex(init, r[j])
    ensures forall i, j :: 0 <= i < j < |r| ==>
      FirstIndex(init + [last], r[i]) < FirstIndex(init + [last], r[j])
    ensures last !in init ==> forall i, j :: 0 <= i < j < |r| + 1 ==>
      FirstIndex(init + [last], (r + [last])[i]) < FirstIndex(init + [last], (r + [last])[j])
  {
    forall v | v in init
      ensures FirstIndex(init + [last], v) == FirstIndex(init, v)
    {
      FirstIndexAppend(init, last, v);
    }
    if last !in init {
      FirstIndexLeast(init + [last], last, |init|);
    }
  }

  /** Appending the same element to both sides, or only to the longer one,
      keeps a subsequence a subsequence. */
  lemma {:induction false} AppendSubsequence<T>(a: seq<T>, b: seq<T>, x: T)
    requires IsSubsequence(a, b)
    ensures IsSubsequence(a, b + [x])
    ensures IsSubsequence(a + [x], b + [x])
    decreases |b|
  {
    if a == [] {
      SubsequenceReflexive([x]);
      SubsequenceAfterPrefix([x], b);
      assert a + [x] == [x];
    } else if a[0] == b[0] && IsSubsequence(a[1..], b[1..]) {
      AppendSubsequence(a[1..], b[1..], x);
      assert (b + [x])[1..] == b[1..] + [x];
      assert (a + [x])[1..] == a[1..] + [x];
    } else {
      AppendSubsequence(a, b[1..], x);
      assert (b + [x])[1..] == b[1..] + [x];
    }
  }

  /** Dropping a prefix of the longer sequence: `a` is a subsequence of `p + a`. */
  lemma {:induction false} SubsequenceAfterPrefix<T>(a: seq<T>, p: seq<T>)
    ensures IsSubsequence(a, p + a)
    decreases |p|
  {
    if p != [] {
      SubsequenceAfterPrefix(a, p[1..]);
      assert (p + a)[1..] == p[1..] + a;
    } else {
      SubsequenceReflexive(a);
      assert p + a == a;
    }
  }

  /** Ascending with repeats allowed: no later element is below an earlier one. */
  predicate Sorted(s: seq<string>) {
    forall i, j :: 0 <= i < j < |s| ==> !Less(s[j], s[i])
  }

  /** "Not below" is transitive. */
  lemma NotBelowTransitive(a: string, b: string, c: string)
    requires !Less(b, a) && !Less(c, b)
    ensures !Less(c, a)
  {
    LessTotal(a, b);
    LessTotal(b, c);
    if a == c {
      LessIrreflexive(a);
    } else if a == b || b == c {
      LessTotal(a, c);
      if Less(c, a) {
        LessAsymmetric(c, a);
      }
    } else {
      LessTransitive(a, b, c);
      LessAsymmetric(a, c);
    }
  }

  /** Nothing in `s` is below `x`, so `x` may be put in front. */
  lemma SortedCons(x: string, s: seq<string>)
    requires Sorted(s)
    requires forall y :: y in s ==> !Less(y, x)
    ensures Sorted([x] + s)
  {
    var t := [x] + s;
    forall i, j | 0 <= i < j < |t|
      ensures !Less(t[j], t[i])
    {
      if i > 0 {
        assert t[i] == s[i - 1] && t[j] == s[j - 1];
      } else {
        assert t[j] in s;
      }
    }
  }

  /** Splitting off the head of a non-empty sequence. */
  lemma HeadTail(s: seq<string>)
    requires |s| > 0
    ensures s == [s[0]] + s[1..]
    ensures multiset(s) == multiset(s[1..]) + multiset{s[0]}
  {
    assert s == [s[0]] + s[1..];
  }

  /** Inserts `x` into an ascending sequence in front of the first element
      that is not below it. */
  function Insert(x: string, s: seq<string>): (r: seq<string>)
    requires Sorted(s)
    ensures Sorted(r)
    ensures multiset(r) == multiset(s) + multiset{x}
    ensures forall y :: y in r <==> y == x || y in s
  {
    if s == [] then [x]
    else if !Less(s[0], x) then
      assert forall y :: y in s ==> !Less(y, x) by {
        forall y | y in s
          ensures !Less(y, x)
        {
          var k :| 0 <= k < |s| && s[k] == y;
          if k > 0 {
            NotBelowTransitive(x, s[0], y);
          }
        }
      }
      SortedCons(x, s);
      [x] + s
    else
      HeadTail(s);
      var t := Insert(x, s[1..]);
      LessAsymmetric(s[0], x);
      assert forall y :: y in t ==> !Less(y, s[0]) by {
        forall y | y in t
          ensures !Less(y, s[0])
        {
          if y != x {
            var k :| 0 <= k < |s[1..]| && s[1..][k] == y;
            assert s[k + 1] == y;
          }
        }
      }
      SortedCons(s[0], t);
      [s[0]] + t
  }

  /** `Array.prototype.sort()` on strings: insertion sort into ascending
      order, keeping every element, repeats included. */
  function SortStrings(s: seq<string>): (r: seq<string>)
    ensures Sorted(r)
    ensures multiset(r) == multiset(s)
  {
    if s == [] then []
    else
      HeadTail(s);
      Insert(s[0], SortStrings(s[1..]))
  }

  /** An ascending sequence without repeats is strictly ascending. */
  lemma SortedDistinctIsStrict(s: seq<string>)
    requires Sorted(s) && NoDuplicates(s)
    ensures StrictlySorted(s)
  {
    forall i, j | 0 <= i < j < |s|
      ensures Less(s[i], s[j])
    {
      LessTotal(s[i], s[j]);
    }
  }

  /** A permutation of a sequence without repeats has no repeats either. */
  lemma PermutationNoDuplicates<T>(a: seq<T>, b: seq<T>)
    requires multiset(a) == multiset(b) && NoDuplicates(a)
    ensures NoDuplicates(b)
  {
    NoDuplicatesCounts(a);
    NoDuplicatesCounts(b);
  }

  /** `[...new Set(xs)].sort()`: the distinct values, strictly ascending. */
  function UniqueSorted(xs: seq<string>): (r: seq<string>)
    ensures StrictlySorted(r)
    ensures NoDuplicates(r)
    ensures forall y :: y in r <==> y in xs
    ensures multiset(r) == multiset(Distinct(xs))
  {
    var d := Distinct(xs);
    var r := SortStrings(d);
    PermutationNoDuplicates(d, r);
    SortedDistinctIsStrict(r);
    assert forall y :: y in r <==> y in multiset(d);
    r
  }

  /** A strictly sorted sequence is determined by its set of elements: the
      facet list is THE ascending enumeration of the distinct values. */
  lemma {:induction false} StrictlySortedUnique(a: seq<string>, b: seq<string>)
    requires StrictlySorted(a) && StrictlySorted(b)
    requires forall y :: y in a <==> y in b
    ensures a == b
    decreases |a|
  {
    assert |a| == 0 <==> |b| == 0 by {
      if |a| > 0 {
        assert a[0] in b;
      }
      if |b| > 0 {
        assert b[0] in a;
      }
    }
    if a != [] {
      MinimumIsHead(a, b);
      MinimumIsHead(b, a);
      LessTotal(a[0], b[0]);
      assert a[0] == b[0];
      forall y
        ensures y in a[1..] <==> y in b[1..]
      {
        TailMembers(a, y);
        TailMembers(b, y);
      }
      StrictlySortedUnique(a[1..], b[1..]);
      assert a == [a[0]] + a[1..] && b == [b[0]] + b[1..];
    }
  }

  /** Nothing in `b` lies below the head of `a` when both hold the same values. */
  lemma MinimumIsHead(a: seq<string>, b: seq<string>)
    requires StrictlySorted(a) && StrictlySorted(b) && |a| > 0 && |b| > 0
    requires forall y :: y in a <==> y in b
    ensures !Less(b[0], a[0])
  {
    assert b[0] in a;
    var k :| 0 <= k < |a| && a[k] == b[0];
    if k > 0 {
      LessAsymmetric(a[0], a[k]);
    } else {
      LessIrreflexive(a[0]);
    }
  }

  /** In a strictly sorted sequence the tail holds exactly the elements other than the head. */
  lemma TailMembers(a: seq<string>, y: string)
    requires StrictlySorted(a) && |a| > 0
    ensures y in a[1..] <==> y in a && y != a[0]
  {
    if y in a[1..] {
      var k :| 0 <= k < |a[1..]| && a[1..][k] == y;
      assert Less(a[0], a[k + 1]);
      LessIrreflexive(a[0]);
    }
    if y in a && y != a[0] {
      var k :| 0 <= k < |a| && a[k] == y;
      assert a[1..][k - 1] == y;
    }
  }
}
