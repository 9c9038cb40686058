/** The Pagination component: page count, the Prev and Next requests and when they are disabled. */
module Pagination {
  import opened Wrappers
  import opened Window

  /** The Prev button is disabled (`page <= 1`). */
  predicate PrevDisabled(page: int) {
    page <= 1
  }

  /** The Next button is disabled (`page >= totalPages`). */
  predicate NextDisabled(page: int, pageSize: nat, total: nat)
    requires pageSize > 0
  {
    page >= TotalPages(total, pageSize)
  }

  /** `prev`: requests the previous page exactly when the Prev button is enabled. */
  function Prev(page: int): (r: Option<int>)
    ensures r.None? <==> PrevDisabled(page)
    ensures r.Some? ==> r.value == page - 1
  {
    if page > 1 then Some(page - 1) else None
  }

  /** `next`: requests the following page exactly when the Next button is enabled. */
  function Next(page: int, pageSize: nat, total: nat): (r: Option<int>)
    requires pageSize > 0
    ensures r.None? <==> NextDisabled(page, pageSize, total)
    ensures r.Some? ==> r.value == page + 1
  {
    if page < TotalPages(total, pageSize) then Some(page + 1) else None
  }

  /** From a page in range, Prev and Next only ever request pages in range. */
  lemma RequestsStayInRange(page: int, pageSize: nat, total: nat)
    requires pageSize > 0 && 1 <= page <= TotalPages(total, pageSize)
    ensures var r := Prev(page); r.Some? ==> 1 <= r.value <= TotalPages(total, pageSize)
    ensures var r := Next(page, pageSize, total); r.Some? ==> 1 <= r.value <= TotalPages(total, pageSize)
  {
  }

  /** With a single page (in particular with no items) both buttons are disabled. */
  lemma SinglePageDisablesBoth(pageSize: nat, total: nat)
    requires pageSize > 0 && total <= pageSize
    ensures TotalPages(total, pageSize) == 1
    ensures PrevDisabled(1) && NextDisabled(1, pageSize, total)
  {
  }
}
