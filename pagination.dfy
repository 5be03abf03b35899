/** The pagination state of the activities page: the current page and the
    page size, and the slice of the items on the current page. */
module Pagination {

  const DefaultPageSize := 20

  /** `Math.ceil(totalItems / pageSize)` for a positive page size. */
  function TotalPages(totalItems: nat, pageSize: nat): (r: nat)
    requires pageSize > 0
    ensures r == 0 <==> totalItems == 0
    ensures r * pageSize >= totalItems
    ensures r > 0 ==> (r - 1) * pageSize < totalItems
  {
    var q := (totalItems + pageSize - 1) / pageSize;
    assert q * pageSize <= totalItems + pageSize - 1 < (q + 1) * pageSize;
    q
  }

  /** `items.slice(start, end)` of JavaScript: negative bounds count from the
      end, bounds are clamped to the length, and an end before the start
      gives nothing. */
  function JsSlice<T>(items: seq<T>, start: int, end: int): (r: seq<T>)
    ensures 0 <= start <= end <= |items| ==> r == items[start..end]
    ensures 0 <= start && |items| <= start ==> r == []
    ensures |r| <= |items|
  {
    var n := |items|;
    var from := if start < 0 then (if n + start < 0 then 0 else n + start) else (if start > n then n else start);
    var to := if end < 0 then (if n + end < 0 then 0 else n + end) else (if end > n then n else end);
    if to <= from then [] else items[from..to]
  }

  /** The items of page `page` (`paginatedItems`). */
  function PageItems<T>(items: seq<T>, page: int, pageSize: nat): (r: seq<T>)
  {
    JsSlice(items, (page - 1) * pageSize, (page - 1) * pageSize + pageSize)
  }

  /** A page holds at most `pageSize` items: the slice starting at the
      page's first index, cut at the end of the items. */
  lemma PageItemsSpec<T>(items: seq<T>, page: int, pageSize: nat)
    requires page >= 1
    ensures var start := (page - 1) * pageSize;
      |PageItems(items, page, pageSize)| <= pageSize
      && (start < |items| ==> PageItems(items, page, pageSize) == items[start..if start + pageSize < |items| then start + pageSize else |items|])
      && (start >= |items| ==> PageItems(items, page, pageSize) == [])
  {
    PageStep(page, pageSize);
    SliceFrom(items, (page - 1) * pageSize, pageSize);
  }

  /** `slice(start, start + count)` for a start that is not negative. */
  lemma SliceFrom<T>(items: seq<T>, start: nat, count: nat)
    ensures |JsSlice(items, start, start + count)| <= count
    ensures start < |items| ==> JsSlice(items, start, start + count) == items[start..if start + count < |items| then start + count else |items|]
    ensures start >= |items| ==> JsSlice(items, start, start + count) == []
  {
  }

  /** The items of pages 1 to `k`, in order. */
  function FirstPages<T>(items: seq<T>, pageSize: nat, k: nat): seq<T>
  {
    if k == 0 then [] else FirstPages(items, pageSize, k - 1) + PageItems(items, k, pageSize)
  }

  lemma FirstPagesPrefix<T>(items: seq<T>, pageSize: nat, k: nat)
    ensures FirstPages(items, pageSize, k) == items[..if k * pageSize < |items| then k * pageSize else |items|]
  {
    FirstPagesUpTo(items, pageSize, k, k * pageSize);
  }

  /** The same, with the end of page `k` given as `end`. */
  lemma {:induction false} FirstPagesUpTo<T>(items: seq<T>, pageSize: nat, k: nat, end: nat)
    requires end == k * pageSize
    ensures FirstPages(items, pageSize, k) == items[..if end < |items| then end else |items|]
  {
    if k > 0 {
      PageStep(k, pageSize);
      var start: nat := (k - 1) * pageSize;
      FirstPagesUpTo(items, pageSize, k - 1, start);
      PageItemsSpec(items, k, pageSize);
      assert end == start + pageSize;
      PrefixStep(items, start, pageSize, FirstPages(items, pageSize, k - 1), PageItems(items, k, pageSize));
    }
  }

  /** The prefix up to a page's start followed by that page is the prefix
      up to the page's end. */
  lemma PrefixStep<T>(items: seq<T>, start: nat, pageSize: nat, prev: seq<T>, page: seq<T>)
    requires prev == items[..if start < |items| then start else |items|]
    requires start < |items| ==> page == items[start..if start + pageSize < |items| then start + pageSize else |items|]
    requires start >= |items| ==> page == []
    ensures prev + page == items[..if start + pageSize < |items| then start + pageSize else |items|]
  {
    if start < |items| {
      var b := if start + pageSize < |items| then start + pageSize else |items|;
      assert items[..b] == items[..start] + items[start..b];
    }
  }

  lemma PageStep(k: int, pageSize: nat)
    requires k >= 1
    ensures 0 <= (k - 1) * pageSize <= k * pageSize == (k - 1) * pageSize + pageSize
  {
  }

  /** Reading the pages 1 to `TotalPages` in order gives back every item
      exactly once. */
  lemma PagesCoverItems<T>(items: seq<T>, pageSize: nat)
    requires pageSize > 0
    ensures FirstPages(items, pageSize, TotalPages(|items|, pageSize)) == items
  {
    FirstPagesPrefix(items, pageSize, TotalPages(|items|, pageSize));
  }

  /** `usePagination`'s state. The items are a property re-read on every
      render, so they are a parameter of the queries. */
  class PaginationState {
    var currentPage: int
    var pageSize: nat

    ghost predicate Valid()
      reads this
    {
      currentPage >= 1 && pageSize > 0
    }

    /** Page 1 with the initial size (20 unless given). */
    constructor (initialPageSize: nat := DefaultPageSize)
      requires initialPageSize > 0
      ensures Valid()
      ensures currentPage == 1 && pageSize == initialPageSize
    {
      currentPage := 1;
      pageSize := initialPageSize;
    }

    function TotalPagesOf(totalItems: nat): nat
      reads this
      requires Valid()
    {
      TotalPages(totalItems, pageSize)
    }

    /** The items of the current page. */
    function PaginatedItems<T>(items: seq<T>): (r: seq<T>)
      reads this
      requires Valid()
      ensures |r| <= pageSize
      ensures r == PageItems(items, currentPage, pageSize)
    {
      PageItemsSpec(items, currentPage, pageSize);
      PageItems(items, currentPage, pageSize)
    }

    /** `handlePageChange`: only a page between 1 and the page count is
      taken; anything else leaves the state as it is. */
    method HandlePageChange(page: int, totalItems: nat)
      requires Valid()
      modifies this
      ensures Valid()
      ensures pageSize == old(pageSize)
      ensures 1 <= page <= TotalPages(totalItems, pageSize) ==> currentPage == page
      ensures !(1 <= page <= TotalPages(totalItems, pageSize)) ==> currentPage == old(currentPage)
    {
      if page >= 1 && page <= TotalPages(totalItems, pageSize) {
        currentPage := page;
      }
    }

    /** `handlePageSizeChange`: the new size, back to page 1. */
    method HandlePageSizeChange(size: nat)
      requires Valid() && size > 0
      modifies this
      ensures Valid()
      ensures pageSize == size && currentPage == 1
    {
      pageSize := size;
      currentPage := 1;
    }

    /** `resetPagination`: back to page 1. */
    method ResetPagination()
      requires Valid()
      modifies this
      ensures Valid()
      ensures currentPage == 1 && pageSize == old(pageSize)
    {
      currentPage := 1;
    }
  }

  /** With no items there are no pages, so no page change is ever taken. */
  lemma NoPageWithoutItems(page: int, pageSize: nat)
    requires pageSize > 0
    ensures !(1 <= page <= TotalPages(0, pageSize))
  {
  }
}
