/** The paginated table component: page count, the rows of the current page, the
    bounds-checked page change, the page-size change, the compact list of page buttons
    ("1 … c-1 c c+1 … N") and the enabled/disabled state of the navigation buttons.
    The component either keeps the page and page size itself (internal mode) or shows
    what its parent passes and reports changes back to it (external mode). */
module Table {
  import opened Values
  import opened Paging

  /** The props the pagination logic reads. In external mode `currentPage`,
      `totalItems` and `itemsPerPage` come from the parent; the two flags say whether
      the parent passed the `onPageChange` and `onItemsPerPageChange` callbacks. */
  datatype Props<T> = Props(
    data: seq<T>,
    showPagination: bool,
    external: bool,
    currentPage: int,
    totalItems: nat,
    itemsPerPage: int,
    hasPageCallback: bool,
    hasPageSizeCallback: bool)

  /** The parent always passes one of the positive page sizes it offers. */
  predicate WellFormed<T>(p: Props<T>) {
    p.itemsPerPage >= 1
  }

  /** `goToPage` accepts a target only inside `1..totalPages`. */
  predicate InRange(page: int, totalPages: int) {
    1 <= page <= totalPages
  }

  /** The table's own pagination state (`internalCurrentPage`, `internalItemsPerPage`). */
  class TableState {
    var internalPage: int
    var internalPerPage: int

    ghost predicate Valid()
      reads this
    {
      internalPage >= 1 && internalPerPage >= 1
    }

    constructor (defaultItemsPerPage: int)
      requires defaultItemsPerPage >= 1
      ensures Valid()
      ensures internalPage == 1 && internalPerPage == defaultItemsPerPage
    {
      internalPage := 1;
      internalPerPage := defaultItemsPerPage;
    }

    function ActualPage<T>(p: Props<T>): int
      reads this
    {
      if p.external then p.currentPage else internalPage
    }

    function ActualPerPage<T>(p: Props<T>): (r: int)
      reads this
      requires Valid() && WellFormed(p)
      ensures r >= 1
    {
      if p.external then p.itemsPerPage else internalPerPage
    }

    function ActualTotal<T>(p: Props<T>): nat {
      if p.external then p.totalItems else |p.data|
    }

    /** `Math.ceil(actualTotalItems / actualItemsPerPage)`. */
    function TotalPages<T>(p: Props<T>): (r: nat)
      reads this
      requires Valid() && WellFormed(p)
      ensures r == 0 <==> ActualTotal(p) == 0
      ensures (r - 1) * ActualPerPage(p) < ActualTotal(p) <= r * ActualPerPage(p)
    {
      CeilDiv(ActualTotal(p), ActualPerPage(p))
    }

    /** The rows shown: in external mode `data` as passed, in internal mode the slice
        `[(page - 1) * n, page * n)` of `data`, clipped to its length. */
    function CurrentData<T>(p: Props<T>): (r: seq<T>)
      reads this
      requires Valid() && WellFormed(p)
      ensures p.external ==> r == p.data
      ensures !p.external ==> |r| <= internalPerPage
      ensures !p.external ==> forall i :: 0 <= i < |r| ==>
        (internalPage - 1) * internalPerPage + i < |p.data| &&
        r[i] == p.data[(internalPage - 1) * internalPerPage + i]
    {
      if p.external then p.data else PageSlice(p.data, internalPage, internalPerPage)
    }

    /** `goToPage(page)`: outside `1..totalPages` nothing happens; inside, the parent is
        told (external mode with a callback) or the table moves to that page. */
    method GoToPage<T>(p: Props<T>, page: int) returns (notify: Option<int>)
      requires Valid() && WellFormed(p)
      modifies this
      ensures Valid()
      ensures internalPerPage == old(internalPerPage)
      ensures !InRange(page, old(TotalPages(p))) ==> notify == None && internalPage == old(internalPage)
      ensures InRange(page, old(TotalPages(p))) && p.external && p.hasPageCallback ==>
        notify == Some(page) && internalPage == old(internalPage)
      ensures InRange(page, old(TotalPages(p))) && !(p.external && p.hasPageCallback) ==>
        notify == None && internalPage == page
    {
      notify := None;
      if page >= 1 && page <= TotalPages(p) {
        if p.external && p.hasPageCallback {
          notify := Some(page);
        } else {
          internalPage := page;
        }
      }
    }

    /** `handleItemsPerPageChange(value)`: the parent is told, or the table takes the new
        size and returns to page 1. `value` is one of the offered positive sizes. */
    method ItemsPerPageChange<T>(p: Props<T>, value: int) returns (notify: Option<int>)
      requires Valid() && value >= 1
      modifies this
      ensures Valid()
      ensures p.external && p.hasPageSizeCallback ==>
        notify == Some(value) && internalPage == old(internalPage) && internalPerPage == old(internalPerPage)
      ensures !(p.external && p.hasPageSizeCallback) ==>
        notify == None && internalPage == 1 && internalPerPage == value
    {
      if p.external && p.hasPageSizeCallback {
        notify := Some(value);
      } else {
        notify := None;
        internalPerPage := value;
        internalPage := 1;
      }
    }
  }

  // ---------------------------------------------------------------------------
  // The list of page buttons.

  /** A page button, or the disabled "..." placeholder. */
  datatype PageItem = Page(n: int) | Ellipsis

  const MaxVisiblePages: int := 7

  function Max(a: int, b: int): int {
    if a >= b then a else b
  }

  /** The buttons `lo, lo + 1, ..., hi`. */
  function Run(lo: int, hi: int): (r: seq<PageItem>)
    decreases hi - lo
    ensures |r| == if lo <= hi then hi - lo + 1 else 0
    ensures forall i :: 0 <= i < |r| ==> r[i] == Page(lo + i)
  {
    if lo > hi then [] else [Page(lo)] + Run(lo + 1, hi)
  }

  lemma RunSnoc(lo: int, hi: int)
    requires lo <= hi + 1
    ensures Run(lo, hi + 1) == Run(lo, hi) + [Page(hi + 1)]
  {
    assert Run(lo, hi + 1)[..|Run(lo, hi + 1)| - 1] == Run(lo, hi);
  }

  /** The page buttons for `totalPages` pages with `current` selected: every page when
      there are at most seven, otherwise the first page, a "..." when pages are hidden
      before the neighbours of `current`, those neighbours, a "..." when pages are hidden
      after them, and the last page. */
  function PageWindow(totalPages: int, current: int): seq<PageItem> {
    if totalPages <= MaxVisiblePages then Run(1, totalPages)
    else
      [Page(1)]
      + (if current > 3 then [Ellipsis] else [])
      + Run(Max(2, current - 1), Min(totalPages - 1, current + 1))
      + (if current < totalPages - 2 then [Ellipsis] else [])
      + [Page(totalPages)]
  }

  /** The `for (let i = lo; i <= hi; i++) pages.push(i)` loop of `getPageNumbers`. */
  method PushRun(pages: seq<PageItem>, lo: int, hi: int) returns (r: seq<PageItem>)
    ensures r == pages + Run(lo, hi)
  {
    r := pages;
    var i := lo;
    while i <= hi
      invariant lo <= i <= Max(lo, hi + 1)
      invariant r == pages + Run(lo, i - 1)
    {
      RunSnoc(lo, i - 1);
      assert pages + Run(lo, i) == pages + Run(lo, i - 1) + [Page(i)];
      r := r + [Page(i)];
      i := i + 1;
    }
  }

  /** `getPageNumbers`: pushes the buttons one by one, as the component does. */
  method GetPageNumbers(totalPages: int, current: int) returns (pages: seq<PageItem>)
    ensures pages == PageWindow(totalPages, current)
  {
    pages := [];
    if totalPages <= MaxVisiblePages {
      pages := PushRun(pages, 1, totalPages);
    } else {
      pages := pages + [Page(1)];
      if current > 3 {
        pages := pages + [Ellipsis];
      }
      pages := PushRun(pages, Max(2, current - 1), Min(totalPages - 1, current + 1));
      if current < totalPages - 2 {
        pages := pages + [Ellipsis];
      }
      pages := pages + [Page(totalPages)];
    }
  }

  /** Page numbers strictly increase from left to right. */
  ghost predicate Increasing(s: seq<PageItem>) {
    forall i, j :: 0 <= i < j < |s| && s[i].Page? && s[j].Page? ==> s[i].n < s[j].n
  }

  /** Two neighbouring page buttons are consecutive pages: no page is skipped
      without a "..." standing for it. */
  ghost predicate NoSilentGap(s: seq<PageItem>) {
    forall i :: 0 <= i < |s| - 1 && s[i].Page? && s[i + 1].Page? ==> s[i + 1].n == s[i].n + 1
  }

  lemma AppendIncreasing(s: seq<PageItem>, t: seq<PageItem>, m: int)
    requires Increasing(s) && Increasing(t)
    requires forall i :: 0 <= i < |s| && s[i].Page? ==> s[i].n < m
    requires forall j :: 0 <= j < |t| && t[j].Page? ==> m <= t[j].n
    ensures Increasing(s + t)
  {
    var u := s + t;
    forall i, j | 0 <= i < j < |u| && u[i].Page? && u[j].Page?
      ensures u[i].n < u[j].n
    {
      if j < |s| {
      } else if i >= |s| {
        assert u[i] == t[i - |s|] && u[j] == t[j - |s|];
      } else {
        assert u[j] == t[j - |s|];
      }
    }
  }

  lemma AppendNoSilentGap(s: seq<PageItem>, t: seq<PageItem>)
    requires NoSilentGap(s) && NoSilentGap(t)
    requires s != [] && t != [] && s[|s| - 1].Page? && t[0].Page? ==> t[0].n == s[|s| - 1].n + 1
    ensures NoSilentGap(s + t)
  {
    var u := s + t;
    forall i | 0 <= i < |u| - 1 && u[i].Page? && u[i + 1].Page?
      ensures u[i + 1].n == u[i].n + 1
    {
      if i >= |s| {
        assert u[i] == t[i - |s|] && u[i + 1] == t[i + 1 - |s|];
      }
    }
  }

  /** With at most seven pages every page is listed, in order, with no "...". */
  lemma SmallWindowListsAll(totalPages: int, current: int)
    requires totalPages <= MaxVisiblePages
    ensures |PageWindow(totalPages, current)| == Max(0, totalPages)
    ensures forall i :: 0 <= i < |PageWindow(totalPages, current)| ==>
      PageWindow(totalPages, current)[i] == Page(i + 1)
    ensures Ellipsis !in PageWindow(totalPages, current)
  {
  }

  /** The five pieces of a large window: first page, optional "...", the run around
      `current`, optional "...", last page. */
  lemma LargeWindowPieces(totalPages: int, current: int)
    requires totalPages > MaxVisiblePages && 1 <= current <= totalPages
    ensures PageWindow(totalPages, current) ==
      [Page(1)]
      + (if current > 3 then [Ellipsis] else [])
      + Run(Max(2, current - 1), Min(totalPages - 1, current + 1))
      + (if current < totalPages - 2 then [Ellipsis] else [])
      + [Page(totalPages)]
    ensures 1 <= |Run(Max(2, current - 1), Min(totalPages - 1, current + 1))| <= 3
  {
  }

  /** With more than seven pages and a valid current page the list starts at page 1,
      ends at the last page, shows the current page and has at most seven entries. */
  lemma LargeWindowBounds(totalPages: int, current: int)
    requires totalPages > MaxVisiblePages && 1 <= current <= totalPages
    ensures var w := PageWindow(totalPages, current);
      && 4 <= |w| <= MaxVisiblePages
      && w[0] == Page(1) && w[|w| - 1] == Page(totalPages)
      && Page(current) in w
  {
    LargeWindowPieces(totalPages, current);
    var lo, hi := Max(2, current - 1), Min(totalPages - 1, current + 1);
    var c := Run(lo, hi);
    var w := PageWindow(totalPages, current);
    if current == 1 {
      assert w[0] == Page(current);
    } else if current == totalPages {
      assert w[|w| - 1] == Page(current);
    } else {
      assert c[current - lo] == Page(current);
    }
  }

  /** The numbers of a large window strictly increase. */
  lemma LargeWindowIncreasing(totalPages: int, current: int)
    requires totalPages > MaxVisiblePages && 1 <= current <= totalPages
    ensures Increasing(PageWindow(totalPages, current))
  {
    LargeWindowPieces(totalPages, current);
    var lo, hi := Max(2, current - 1), Min(totalPages - 1, current + 1);
    var a: seq<PageItem> := [Page(1)];
    var b: seq<PageItem> := if current > 3 then [Ellipsis] else [];
    var c := Run(lo, hi);
    var d: seq<PageItem> := if current < totalPages - 2 then [Ellipsis] else [];
    var e: seq<PageItem> := [Page(totalPages)];
    AppendIncreasing(a, b, lo);
    AppendIncreasing(a + b, c, lo);
    AppendIncreasing(a + b + c, d, totalPages);
    AppendIncreasing(a + b + c + d, e, totalPages);
  }

  /** In a large window, a page is left out only where a "..." stands. */
  lemma LargeWindowNoSilentGap(totalPages: int, current: int)
    requires totalPages > MaxVisiblePages && 1 <= current <= totalPages
    ensures NoSilentGap(PageWindow(totalPages, current))
  {
    LargeWindowPieces(totalPages, current);
    var lo, hi := Max(2, current - 1), Min(totalPages - 1, current + 1);
    var a: seq<PageItem> := [Page(1)];
    var b: seq<PageItem> := if current > 3 then [Ellipsis] else [];
    var c := Run(lo, hi);
    var d: seq<PageItem> := if current < totalPages - 2 then [Ellipsis] else [];
    var e: seq<PageItem> := [Page(totalPages)];
    AppendNoSilentGap(a, b);
    AppendNoSilentGap(a + b, c);
    AppendNoSilentGap(a + b + c, d);
    AppendNoSilentGap(a + b + c + d, e);
  }

  /** A leading "..." appears exactly when `current > 3` and a trailing one exactly when
      `current < totalPages - 2`; the middle run is
      `max(2, current - 1) .. min(totalPages - 1, current + 1)`. */
  lemma LargeWindowEllipses(totalPages: int, current: int)
    requires totalPages > MaxVisiblePages && 1 <= current <= totalPages
    ensures var w := PageWindow(totalPages, current);
      && (w[1] == Ellipsis <==> current > 3)
      && (w[|w| - 2] == Ellipsis <==> current < totalPages - 2)
      && (var lead := if current > 3 then 2 else 1;
          w[lead] == Page(Max(2, current - 1)))
      && (var trail := if current < totalPages - 2 then 3 else 2;
          w[|w| - trail] == Page(Min(totalPages - 1, current + 1)))
  {
    var c := Run(Max(2, current - 1), Min(totalPages - 1, current + 1));
    assert 1 <= |c| <= 3;
  }

  // ---------------------------------------------------------------------------
  // The navigation buttons.

  /** The controls are rendered only when pagination is on and there are two pages or more. */
  predicate ShowControls(showPagination: bool, totalPages: int) {
    showPagination && totalPages > 1
  }

  /** "First" and "previous" are disabled on page 1. */
  predicate BackDisabled(current: int) {
    current == 1
  }

  /** "Next" and "last" are disabled on the last page. */
  predicate ForwardDisabled(current: int, totalPages: int) {
    current == totalPages
  }

  /** On a valid page, every enabled navigation button leads to a page `goToPage` accepts,
      and the buttons of a side are disabled only where there is no page to go to. */
  lemma NavigationButtonsAgreeWithGoToPage(current: int, totalPages: int)
    requires ShowControls(true, totalPages) && InRange(current, totalPages)
    ensures !BackDisabled(current) <==> InRange(current - 1, totalPages)
    ensures !ForwardDisabled(current, totalPages) <==> InRange(current + 1, totalPages)
    ensures InRange(1, totalPages) && InRange(totalPages, totalPages)
  {
  }
}
