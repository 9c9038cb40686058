/**
 * The window engine: paged arithmetic (`totalPages`, the clamped `currentPage`, `pageItems`)
 * and the growing window of infinite mode (`infiniteItems`, the scroll advance).
 */
module Window {

  function Min(a: int, b: int): int {
    if a <= b then a else b
  }

  /** `Math.max(1, Math.ceil(total / pageSize))`: the fewest pages that hold every item, and at least one. */
  function TotalPages(total: nat, pageSize: nat): (n: nat)
    requires pageSize > 0
    ensures n >= 1
    ensures total == 0 ==> n == 1
    ensures total > 0 ==> (n - 1) * pageSize < total <= n * pageSize
  {
    var c := (total + pageSize - 1) / pageSize;
    CeilDivBounds(total, pageSize);
    if c < 1 then 1 else c
  }

  lemma CeilDivBounds(total: nat, pageSize: nat)
    requires pageSize > 0
    ensures var c := (total + pageSize - 1) / pageSize;
      total > 0 ==> c >= 1 && (c - 1) * pageSize < total <= c * pageSize
  {
    var c := (total + pageSize - 1) / pageSize;
    var m := (total + pageSize - 1) % pageSize;
    assert total + pageSize - 1 == c * pageSize + m;
    assert (c - 1) * pageSize == c * pageSize - pageSize;
  }

  /** `Math.min(page, totalPages)`: a requested page, clamped down to the last page. */
  function CurrentPage(page: int, total: nat, pageSize: nat): (p: int)
    requires page >= 1 && pageSize > 0
    ensures 1 <= p <= TotalPages(total, pageSize)
    ensures page <= TotalPages(total, pageSize) ==> p == page
    ensures page > TotalPages(total, pageSize) ==> p == TotalPages(total, pageSize)
  {
    Min(page, TotalPages(total, pageSize))
  }

  /** `s.slice(from, to)` for non-negative bounds: out-of-range bounds are cut to the length. */
  function Slice<T>(s: seq<T>, from: nat, to: nat): (r: seq<T>)
    ensures from <= to && to <= |s| ==> r == s[from..to]
    ensures from <= |s| <= to ==> r == s[from..]
    ensures from >= |s| || to <= from ==> r == []
  {
    var a := Min(from, |s|);
    var b := Min(to, |s|);
    if b <= a then [] else s[a..b]
  }

  /** `startIdx`: the index of the clamped page's first item; it never lies past the end of the list. */
  function StartIndex(page: int, total: nat, pageSize: nat): (start: nat)
    requires page >= 1 && pageSize > 0
    ensures start <= total
    ensures total > 0 ==> start < total
    ensures start == (CurrentPage(page, total, pageSize) - 1) * pageSize
  {
    var p := CurrentPage(page, total, pageSize);
    StartInRange(p, total, pageSize);
    (p - 1) * pageSize
  }

  /**
   * `pageItems`: the clamped page's slice of the sorted list. It holds at most `pageSize`
   * items, and it is empty only when the list is.
   */
  function PageItems<T>(sorted: seq<T>, page: int, pageSize: nat): (r: seq<T>)
    requires page >= 1 && pageSize > 0
    ensures var start := StartIndex(page, |sorted|, pageSize);
      r == sorted[start..Min(|sorted|, start + pageSize)]
    ensures |r| <= pageSize
    ensures |sorted| > 0 <==> |r| > 0
  {
    var start := StartIndex(page, |sorted|, pageSize);
    Slice(sorted, start, start + pageSize)
  }

  lemma StartInRange(p: int, total: nat, pageSize: nat)
    requires pageSize > 0 && 1 <= p <= TotalPages(total, pageSize)
    ensures 0 <= (p - 1) * pageSize <= total
    ensures total > 0 ==> (p - 1) * pageSize < total
  {
    var n := TotalPages(total, pageSize);
    assert (p - 1) * pageSize <= (n - 1) * pageSize by {
      assert (n - 1) * pageSize - (p - 1) * pageSize == (n - p) * pageSize;
    }
  }

  /** Example: 23 items in pages of 10; page 5 clamps to page 3, which shows items 20 to 22. */
  lemma PagingExample(sorted: seq<int>)
    requires |sorted| == 23
    ensures TotalPages(23, 10) == 3
    ensures CurrentPage(5, 23, 10) == 3
    ensures StartIndex(5, 23, 10) == 20
    ensures PageItems(sorted, 5, 10) == sorted[20..23]
  {
  }

  /** `infiniteItems`: the first `itemsToShow` items, or all of them when there are fewer. */
  function InfiniteItems<T>(sorted: seq<T>, itemsToShow: nat): (r: seq<T>)
    ensures r == sorted[..Min(itemsToShow, |sorted|)]
  {
    Slice(sorted, 0, itemsToShow)
  }

  /**
   * The scroll advance of `itemsToShow`: when fewer than `total` are shown, `pageSize` more,
   * but never past `total`; otherwise nothing changes.
   */
  function Advance(n: nat, total: nat, pageSize: nat): (m: nat)
    requires pageSize > 0
    ensures n <= m
    ensures n < total ==> n < m <= total && m == Min(total, n + pageSize)
    ensures n >= total ==> m == n
  {
    if n < total then Min(total, n + pageSize) else n
  }

  /** `k` scroll advances in a row. */
  function AdvanceTimes(n: nat, k: nat, total: nat, pageSize: nat): nat
    requires pageSize > 0
    decreases k
  {
    if k == 0 then n else AdvanceTimes(Advance(n, total, pageSize), k - 1, total, pageSize)
  }

  /**
   * From any window no larger than the list, `k` advances show the whole list as soon as
   * `k` pages cover the missing items (`k * pageSize >= total - n`); further advances change nothing.
   */
  lemma {:induction false} AdvanceReachesTotal(n: nat, total: nat, pageSize: nat, k: nat)
    requires pageSize > 0 && n <= total
    requires k * pageSize >= total - n
    ensures AdvanceTimes(n, k, total, pageSize) == total
    decreases k
  {
    if n == total {
      AdvanceAtTotal(n, k, pageSize);
    } else {
      var m := Advance(n, total, pageSize);
      assert k > 0;
      assert (k - 1) * pageSize == k * pageSize - pageSize;
      if m < total {
        AdvanceReachesTotal(m, total, pageSize, k - 1);
      } else {
        AdvanceAtTotal(m, k - 1, pageSize);
      }
    }
  }

  lemma {:induction false} AdvanceAtTotal(total: nat, k: nat, pageSize: nat)
    requires pageSize > 0
    ensures AdvanceTimes(total, k, total, pageSize) == total
    decreases k
  {
    if k > 0 {
      AdvanceAtTotal(total, k - 1, pageSize);
    }
  }

  /** Example: 25 items in pages of 10 show 10, then 20, then 25, and stay at 25. */
  lemma AdvanceExample()
    ensures Advance(10, 25, 10) == 20
    ensures Advance(20, 25, 10) == 25
    ensures Advance(25, 25, 10) == 25
  {
  }
}
