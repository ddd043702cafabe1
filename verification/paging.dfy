/** Pagination of the filtered list: JavaScript's `Array.prototype.slice`,
    the window of one page, and the page count `Math.ceil(length / perPage)`. */
module Paging {

  function Min(a: int, b: int): int {
    if a <= b then a else b
  }

  /** How `slice` reads an index against a length: a negative index counts
      back from the end, and the outcome is clamped to `[0, len]`. */
  function RelativeIndex(i: int, len: nat): (r: nat)
    ensures r <= len
    ensures 0 <= i ==> r == Min(i, len)
    ensures i < 0 ==> r == if len + i < 0 then 0 else len + i
  {
    if i < 0 then (if len + i < 0 then 0 else len + i)
    else if i > len then len
    else i
  }

  /** `s.slice(start, end)`: never fails; an empty window gives the empty sequence. */
  function Slice<T>(s: seq<T>, start: int, end: int): (r: seq<T>)
    ensures |r| <= |s|
    ensures 0 <= start <= end ==> r == s[Min(start, |s|)..Min(end, |s|)]
    ensures 0 <= start <= end ==> |r| <= end - start
    ensures 0 <= start && |s| <= start ==> r == []
    ensures 0 <= end <= start ==> r == []
  {
    var a := RelativeIndex(start, |s|);
    var b := RelativeIndex(end, |s|);
    if a < b then s[a..b] else []
  }

  /** Index of the first item on a 1-based page: one page size before the
      end of the page. */
  function PageStart(page: int, perPage: int): int {
    page * perPage - perPage
  }

  /** Page `page` starts after `page - 1` full pages. */
  lemma PageStartFacts(page: int, perPage: int)
    requires page >= 1 && perPage >= 1
    ensures PageStart(page, perPage) == (page - 1) * perPage
    ensures PageStart(page, perPage) >= 0
  {
    assert (page - 1) * perPage == page * perPage - perPage;
  }

  /** `items.slice(page * perPage - perPage, page * perPage)`: the contiguous
      window of at most `perPage` items starting at the page start, cut off at
      the end of the list; empty once the start is at or past the end. */
  function CurrentPage<T>(items: seq<T>, page: int, perPage: int): (r: seq<T>)
    ensures page >= 1 && perPage >= 1 ==>
      var start := PageStart(page, perPage);
      && r == items[Min(start, |items|)..Min(start + perPage, |items|)]
      && |r| <= perPage
      && (start >= |items| ==> r == [])
      && (start < |items| ==>
            && |r| == Min(perPage, |items| - start)
            && forall i :: 0 <= i < |r| ==> r[i] == items[start + i])
  {
    var last := page * perPage;
    var first := last - perPage;
    if page >= 1 && perPage >= 1 then
      PageStartFacts(page, perPage);
      Window(items, first, perPage)
    else
      Slice(items, first, last)
  }

  /** The window of `perPage` items from a non-negative `start`. */
  function Window<T>(items: seq<T>, start: int, perPage: int): (r: seq<T>)
    requires start >= 0 && perPage >= 1
    ensures r == Slice(items, start, start + perPage)
    ensures r == items[Min(start, |items|)..Min(start + perPage, |items|)]
    ensures |r| <= perPage
    ensures start >= |items| ==> r == []
    ensures start < |items| ==>
      && |r| == Min(perPage, |items| - start)
      && forall i :: 0 <= i < |r| ==> r[i] == items[start + i]
  {
    Slice(items, start, start + perPage)
  }

  /** `Math.ceil(n / d)` for an item count `n` and a positive page size `d`. */
  function CeilDiv(n: nat, d: int): (r: nat)
    requires d >= 1
    ensures r == 0 <==> n == 0
    ensures r > 0 ==> (r - 1) * d < n <= r * d
  {
    var q := (n + d - 1) / d;
    var m := (n + d - 1) % d;
    assert n + d - 1 == q * d + m && 0 <= m < d;
    assert q * d == (q - 1) * d + d;
    q
  }

  /** `a * d < b * d` with `d` positive means `a < b`. */
  lemma MulCancel(a: int, b: int, d: int)
    requires d >= 1 && a * d < b * d
    ensures a < b
  {
  }

  /** The ceiling is the only page count whose pages hold exactly `n` items:
      any `k` with `(k - 1) * d < n <= k * d` is `CeilDiv(n, d)`. */
  lemma CeilDivUnique(n: nat, d: int, k: int)
    requires d >= 1 && k >= 1
    requires (k - 1) * d < n <= k * d
    ensures CeilDiv(n, d) == k
  {
    var r := CeilDiv(n, d);
    assert r > 0;
    MulCancel(r - 1, k, d);
    MulCancel(k - 1, r, d);
  }

  /** A page is non-empty exactly when it is one of the first `CeilDiv` pages. */
  lemma PageNonEmptyIff<T>(items: seq<T>, page: int, perPage: int)
    requires page >= 1 && perPage >= 1
    ensures CurrentPage(items, page, perPage) != [] <==> page <= CeilDiv(|items|, perPage)
  {
    PageStartFacts(page, perPage);
    StartBeforeEndIff(page, perPage, |items|);
  }

  /** Page `page` starts before item `n` exactly when it is one of the first
      `CeilDiv(n, perPage)` pages. */
  lemma StartBeforeEndIff(page: int, perPage: int, n: nat)
    requires page >= 1 && perPage >= 1
    ensures (page - 1) * perPage < n <==> page <= CeilDiv(n, perPage)
  {
    var t := CeilDiv(n, perPage);
    if page <= t {
      MulLe(page - 1, t - 1, perPage);
    } else {
      MulLe(t, page - 1, perPage);
    }
  }

  /** `a <= b` and `d` positive give `a * d <= b * d`. */
  lemma MulLe(a: int, b: int, d: int)
    requires d >= 1 && a <= b
    ensures a * d <= b * d
  {
    assert b * d - a * d == (b - a) * d;
  }

  /** Pages 1 to `k`, one after the other. */
  function PagesUpTo<T>(items: seq<T>, k: nat, perPage: int): seq<T> {
    if k == 0 then [] else PagesUpTo(items, k - 1, perPage) + CurrentPage(items, k, perPage)
  }

  /** Pages 1 to `k` together are the first `k * perPage` items, no item
      skipped or repeated. */
  lemma {:induction false} PagesUpToIsPrefix<T>(items: seq<T>, k: nat, perPage: int)
    requires perPage >= 1
    ensures PagesUpTo(items, k, perPage) == items[..Min(k * perPage, |items|)]
  {
    if k > 0 {
      PagesUpToIsPrefix(items, k - 1, perPage);
      PageStartFacts(k, perPage);
      var start := PageStart(k, perPage);
      PrefixSplit(items, Min(start, |items|), Min(start + perPage, |items|));
    }
  }

  /** A prefix followed by the next slice is the longer prefix. */
  lemma PrefixSplit<T>(items: seq<T>, a: int, b: int)
    requires 0 <= a <= b <= |items|
    ensures items[..a] + items[a..b] == items[..b]
  {
  }

  /** Pages 1 to `CeilDiv(|items|, perPage)` together are exactly the list. */
  lemma PagesCoverAll<T>(items: seq<T>, perPage: int)
    requires perPage >= 1
    ensures PagesUpTo(items, CeilDiv(|items|, perPage), perPage) == items
  {
    var t := CeilDiv(|items|, perPage);
    PagesUpToIsPrefix(items, t, perPage);
    assert items[..|items|] == items;
  }
}
