/** Generic facts about sequences used throughout the book view pipeline:
    order-preserving subsequences and duplicate-freedom. */
module Seqs {

  /** `a` can be obtained from `b` by deleting elements, keeping the order
      of the rest. */
  ghost predicate IsSubsequence<T>(a: seq<T>, b: seq<T>)
    decreases |b|
  {
    && |a| <= |b|
    && (|| a == []
        || (a[0] == b[0] && IsSubsequence(a[1..], b[1..]))
        || IsSubsequence(a, b[1..]))
  }

  /** No value occurs at two different positions. */
  predicate NoDuplicates<T(==)>(s: seq<T>) {
    forall i, j :: 0 <= i < j < |s| ==> s[i] != s[j]
  }

  /** `indexOf`: the position of the first occurrence of `v` in `s`. */
  function FirstIndex<T(==)>(s: seq<T>, v: T): (k: nat)
    requires v in s
    ensures k < |s| && s[k] == v
    ensures forall i :: 0 <= i < k ==> s[i] != v
  {
    if s[0] == v then 0
    else
      assert v in s[1..] by {
        var j :| 0 <= j < |s| && s[j] == v;
        assert s[1..][j - 1] == v;
      }
      1 + FirstIndex(s[1..], v)
  }

  /** The first occurrence is the only position holding `v` with no `v` before it. */
  lemma FirstIndexLeast<T>(s: seq<T>, v: T, k: nat)
    requires k < |s| && s[k] == v
    requires forall i :: 0 <= i < k ==> s[i] != v
    ensures FirstIndex(s, v) == k
  {
  }

  /** Appending leaves the first occurrence of a value already present where it was. */
  lemma FirstIndexAppend<T>(s: seq<T>, x: T, v: T)
    requires v in s
    ensures FirstIndex(s + [x], v) == FirstIndex(s, v)
  {
    var k := FirstIndex(s, v);
    var t := s + [x];
    assert forall i :: 0 <= i < k ==> t[i] == s[i];
    FirstIndexLeast(t, v, k);
  }

  /** No duplicates means every value is counted at most once. */
  lemma {:induction false} NoDuplicatesCounts<T>(s: seq<T>)
    ensures NoDuplicates(s) <==> forall v :: multiset(s)[v] <= 1
  {
    if s != [] {
      var t := s[1..];
      NoDuplicatesCounts(t);
      assert s == [s[0]] + t;
      assert multiset(s) == multiset{s[0]} + multiset(t);
      if NoDuplicates(s) {
        assert NoDuplicates(t) by {
          forall i, j | 0 <= i < j < |t|
            ensures t[i] != t[j]
          {
            assert t[i] == s[i + 1] && t[j] == s[j + 1];
          }
        }
        assert forall j :: 0 <= j < |t| ==> t[j] == s[j + 1];
      } else {
        var i, j :| 0 <= i < j < |s| && s[i] == s[j];
        if i == 0 {
          assert t[j - 1] == s[0];
          assert multiset(t)[s[0]] >= 1;
          assert multiset(s)[s[0]] >= 2;
        } else {
          assert t[i - 1] == t[j - 1];
          assert !NoDuplicates(t);
          var v :| multiset(t)[v] > 1;
          assert multiset(s)[v] > 1;
        }
      }
    }
  }

  /** Every sequence is a subsequence of itself. */
  lemma {:induction false} SubsequenceReflexive<T>(a: seq<T>)
    ensures IsSubsequence(a, a)
    decreases |a|
  {
    if a != [] {
      SubsequenceReflexive(a[1..]);
    }
  }

  /** `s.filter(p)`: the elements that satisfy `p`, in their original order. */
  function Filter<T>(s: seq<T>, p: T -> bool): (r: seq<T>)
    ensures IsSubsequence(r, s)
    ensures forall i :: 0 <= i < |r| ==> p(r[i])
  {
    if s == [] then []
    else
      var rest := Filter(s[1..], p);
      if p(s[0]) then
        assert ([s[0]] + rest)[1..] == rest;
        [s[0]] + rest
      else
        rest
  }

  /** One step of the filter: the head is kept or dropped, then the tail is filtered. */
  lemma FilterUnfold<T>(s: seq<T>, p: T -> bool)
    requires s != []
    ensures Filter(s, p) == (if p(s[0]) then [s[0]] else []) + Filter(s[1..], p)
  {
  }

  /** The filter keeps every copy of an element that passes and no copy of
      one that fails; with `IsSubsequence` this determines the result. */
  lemma {:induction false} FilterCounts<T>(s: seq<T>, p: T -> bool, x: T)
    ensures multiset(Filter(s, p))[x] == if p(x) then multiset(s)[x] else 0
  {
    if s != [] {
      FilterCounts(s[1..], p, x);
      assert s == [s[0]] + s[1..];
      assert multiset(s) == multiset{s[0]} + multiset(s[1..]);
      FilterUnfold(s, p);
    }
  }

  /** Filtering a concatenation filters each part. */
  lemma {:induction false} FilterAppend<T>(xs: seq<T>, ys: seq<T>, p: T -> bool)
    ensures Filter(xs + ys, p) == Filter(xs, p) + Filter(ys, p)
  {
    if xs == [] {
      assert xs + ys == ys;
    } else {
      var zs := xs + ys;
      assert zs[0] == xs[0] && zs[1..] == xs[1..] + ys;
      var a := Filter(xs[1..], p);
      var b := Filter(ys, p);
      FilterAppend(xs[1..], ys, p);
      assert Filter(zs[1..], p) == a + b;
      if p(xs[0]) {
        assert Filter(zs, p) == [xs[0]] + (a + b);
        assert Filter(xs, p) == [xs[0]] + a;
        assert [xs[0]] + (a + b) == ([xs[0]] + a) + b;
      } else {
        assert Filter(zs, p) == a + b;
        assert Filter(xs, p) == a;
      }
    }
  }

  /** When every element passes, the filter changes nothing. */
  lemma {:induction false} FilterAllPass<T>(s: seq<T>, p: T -> bool)
    requires forall i :: 0 <= i < |s| ==> p(s[i])
    ensures Filter(s, p) == s
  {
    if s != [] {
      assert p(s[0]);
      FilterAllPass(s[1..], p);
    }
  }

  /** When no element passes, the filter returns nothing. */
  lemma {:induction false} FilterNonePass<T>(s: seq<T>, p: T -> bool)
    requires forall i :: 0 <= i < |s| ==> !p(s[i])
    ensures Filter(s, p) == []
  {
    if s != [] {
      assert !p(s[0]);
      FilterNonePass(s[1..], p);
    }
  }

  /** Predicates that agree on the elements filter alike. */
  lemma {:induction false} FilterCongruent<T>(s: seq<T>, p: T -> bool, q: T -> bool)
    requires forall i :: 0 <= i < |s| ==> (p(s[i]) <==> q(s[i]))
    ensures Filter(s, p) == Filter(s, q)
  {
    if s != [] {
      assert p(s[0]) <==> q(s[0]);
      FilterCongruent(s[1..], p, q);
    }
  }

  /** A stronger predicate keeps a subsequence of what a weaker one keeps. */
  lemma {:induction false} FilterStronger<T>(s: seq<T>, weak: T -> bool, strong: T -> bool)
    requires forall i :: 0 <= i < |s| ==> strong(s[i]) ==> weak(s[i])
    ensures IsSubsequence(Filter(s, strong), Filter(s, weak))
  {
    if s != [] {
      assert strong(s[0]) ==> weak(s[0]);
      FilterStronger(s[1..], weak, strong);
      var n := Filter(s[1..], strong);
      var w := Filter(s[1..], weak);
      if strong(s[0]) {
        assert ([s[0]] + n)[1..] == n && ([s[0]] + w)[1..] == w;
      } else if weak(s[0]) {
        assert ([s[0]] + w)[1..] == w;
      }
    }
  }
}
