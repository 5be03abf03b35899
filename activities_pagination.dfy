/** The pagination bar: the "showing x to y" range, the window of page
    buttons and the guard against repeated page changes. */
module ActivitiesPagination {
  import opened Wrappers
  import opened Pagination

  const MaxVisiblePages := 5

  /** A page button or the "..." gap. */
  datatype PageItem = PageButton(n: int) | Gap

  /** `startItem` and `endItem`, or `None` when there are no items and the
      bar is not rendered. */
  function ItemRange(currentPage: int, pageSize: nat, totalItems: nat): (r: Option<(int, int)>)
    ensures r.None? <==> totalItems == 0
    ensures r.Some? ==> r.value.0 == (currentPage - 1) * pageSize + 1
    ensures r.Some? ==> r.value.1 == if currentPage * pageSize < totalItems then currentPage * pageSize else totalItems
  {
    if totalItems == 0 then None
    else
      var endItem := if currentPage * pageSize < totalItems then currentPage * pageSize else totalItems;
      Some(((currentPage - 1) * pageSize + 1, endItem))
  }

  /** On a page that exists, the range shown is exactly the items of that
      page: it lies within 1..totalItems and counts the page's items. */
  lemma ItemRangeMatchesPage<T>(items: seq<T>, currentPage: int, pageSize: nat)
    requires pageSize > 0 && 1 <= currentPage <= TotalPages(|items|, pageSize)
    ensures var r := ItemRange(currentPage, pageSize, |items|);
      r.Some? && 1 <= r.value.0 <= r.value.1 <= |items|
      && r.value.1 - r.value.0 + 1 == |PageItems(items, currentPage, pageSize)|
  {
    PageItemsSpec(items, currentPage, pageSize);
    var n := TotalPages(|items|, pageSize);
    PageStart(currentPage, n, pageSize, |items|);
  }

  /** The page's first index lies before the end of the items, and the
      next page starts one page size further. */
  lemma PageStart(page: int, n: int, pageSize: nat, total: nat)
    requires 1 <= page <= n && (n - 1) * pageSize < total
    ensures 0 <= (page - 1) * pageSize < total
    ensures page * pageSize == (page - 1) * pageSize + pageSize
  {
    MulMonotone(page - 1, n - 1, pageSize);
  }

  lemma MulMonotone(a: int, b: int, s: nat)
    requires 0 <= a <= b
    ensures 0 <= a * s <= b * s
  {
  }

  /** The window of page buttons `renderPageNumbers` lays out. */
  function Window(currentPage: int, totalPages: int): seq<PageItem>
  {
    if totalPages <= MaxVisiblePages then
      seq(if totalPages < 0 then 0 else totalPages, i => PageButton(i + 1))
    else if currentPage <= 3 then
      [PageButton(1), PageButton(2), PageButton(3), PageButton(4), Gap, PageButton(totalPages)]
    else if currentPage >= totalPages - 2 then
      [PageButton(1), Gap, PageButton(totalPages - 3), PageButton(totalPages - 2),
       PageButton(totalPages - 1), PageButton(totalPages)]
    else
      [PageButton(1), Gap, PageButton(currentPage - 1), PageButton(currentPage), PageButton(currentPage + 1),
       Gap, PageButton(totalPages)]
  }

  /** `renderPageNumbers`: the loop over all pages when they fit, a fixed
      pattern otherwise. */
  method RenderPageNumbers(currentPage: int, totalPages: int) returns (pages: seq<PageItem>)
    ensures pages == Window(currentPage, totalPages)
  {
    pages := [];
    if totalPages <= MaxVisiblePages {
      var i := 1;
      while i <= totalPages
        invariant 1 <= i <= (if totalPages < 0 then 0 else totalPages) + 1
        invariant pages == seq(i - 1, k => PageButton(k + 1))
      {
        pages := pages + [PageButton(i)];
        i := i + 1;
      }
    } else if currentPage <= 3 {
      pages := pages + [PageButton(1), PageButton(2), PageButton(3), PageButton(4), Gap, PageButton(totalPages)];
    } else if currentPage >= totalPages - 2 {
      pages := pages + [PageButton(1), Gap, PageButton(totalPages - 3), PageButton(totalPages - 2),
                        PageButton(totalPages - 1), PageButton(totalPages)];
    } else {
      pages := pages + [PageButton(1), Gap, PageButton(currentPage - 1), PageButton(currentPage),
                        PageButton(currentPage + 1), Gap, PageButton(totalPages)];
    }
  }

  /** With at most five pages every page has a button, in order. */
  lemma WindowSmall(currentPage: int, totalPages: nat)
    requires totalPages <= MaxVisiblePages
    ensures |Window(currentPage, totalPages)| == totalPages
    ensures forall i :: 0 <= i < totalPages ==> Window(currentPage, totalPages)[i] == PageButton(i + 1)
  {
  }

  /** Every button is a real page, the buttons increase strictly from the
      first page to the last, and the window is at most seven entries long. */
  lemma WindowWellFormed(currentPage: int, totalPages: int)
    requires 1 <= currentPage <= totalPages
    ensures var w := Window(currentPage, totalPages);
      |w| <= 7 && w[0] == PageButton(1) && w[|w| - 1] == PageButton(totalPages)
      && (forall i :: 0 <= i < |w| && w[i].PageButton? ==> 1 <= w[i].n <= totalPages)
      && (forall i, j :: 0 <= i < j < |w| && w[i].PageButton? && w[j].PageButton? ==> w[i].n < w[j].n)
  {
  }

  /** The current page always has a button. */
  lemma WindowShowsCurrent(currentPage: int, totalPages: int)
    requires 1 <= currentPage <= totalPages
    ensures PageButton(currentPage) in Window(currentPage, totalPages)
  {
    var w := Window(currentPage, totalPages);
    if totalPages <= MaxVisiblePages {
      assert w[currentPage - 1] == PageButton(currentPage);
    } else if currentPage <= 3 {
      assert w[currentPage - 1] == PageButton(currentPage);
    } else if currentPage >= totalPages - 2 {
      assert w[currentPage - totalPages + 5] == PageButton(currentPage);
    } else {
      assert w[3] == PageButton(currentPage);
    }
  }

  /** The bar's `isChanging` flag, set while a page change is in flight and
      cleared by a timer half a second later. */
  class PageChangeGuard {
    var isChanging: bool

    constructor ()
      ensures !isChanging
    {
      isChanging := false;
    }

    /** `handlePageChange`: forwards the page (the result) unless it is the
      current one or a change is in flight. */
    method HandlePageChange(page: int, currentPage: int) returns (forwarded: Option<int>)
      modifies this
      ensures page != currentPage && !old(isChanging) ==> forwarded == Some(page) && isChanging
      ensures page == currentPage || old(isChanging) ==> forwarded.None? && isChanging == old(isChanging)
    {
      forwarded := None;
      if page != currentPage && !isChanging {
        isChanging := true;
        forwarded := Some(page);
      }
    }

    /** The timer callback. */
    method TimerElapsed()
      modifies this
      ensures !isChanging
    {
      isChanging := false;
    }
  }
}
