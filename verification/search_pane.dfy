/**
 * SearchPane: the paging state behind the search bar. The widgets are
 * reduced to the values the paging decisions read and write: the text in
 * the search field, the page size selected in the combo box, the enabled
 * flags of the search, previous and next buttons, and the busy label.
 */
module SearchPane {
  import opened Wrappers
  import opened JavaLang

  /** The entries of the results-per-page combo box. */
  datatype PageSize = Ten | TwentyFive | Fifty | Hundred

  function SizeValue(s: PageSize): (n: int)
    ensures n in {10, 25, 50, 100}
  {
    match s
    case Ten => 10
    case TwentyFive => 25
    case Fifty => 50
    case Hundred => 100
  }

  datatype Pane = Pane(
    text: string,                 // the search field
    selected: PageSize,           // the combo box selection
    page: int,
    totalResults: int,
    lastQuery: Option<string>,    // lastQueryString; None is null
    pageSize: int,                // the field copied from the combo box on each update
    nextEnabled: bool,
    previousEnabled: bool,
    searchEnabled: bool,
    busyVisible: bool)

  /**
   * The pane after construction: empty field, first combo entry selected,
   * page and total 0, no query yet, both paging buttons disabled, the search
   * button enabled and the busy label hidden.
   */
  const Initial: Pane := Pane("", Ten, 0, 0, None, 0, false, false, true, false)

  /** getPageSize: the selected combo entry. */
  function GetPageSize(p: Pane): (n: int)
    ensures n > 0
  {
    SizeValue(p.selected)
  }

  /** getPageQuery: the last displayed query, null before the first search. */
  function GetPageQuery(p: Pane): Option<string>
  {
    p.lastQuery
  }

  /** setSearchField: only the text field changes. */
  function SetSearchField(p: Pane, query: string): (p': Pane)
    ensures p'.text == query && p' == p.(text := query)
  {
    p.(text := query)
  }

  /**
   * update: write the query into the field and remember it, record page and
   * total, copy the page size from the combo, then enable next when the page
   * is before the last whole page (truncating division) and previous when the
   * page is not the first.
   */
  function Update(p: Pane, query: string, totalResultCount: int, pageIndex: int): (p': Pane)
    ensures p'.text == query && p'.lastQuery == Some(query)
    ensures p'.page == pageIndex && p'.totalResults == totalResultCount
    ensures p'.pageSize == GetPageSize(p) && p'.selected == p.selected
    ensures p'.previousEnabled <==> pageIndex != 0
    ensures p'.searchEnabled == p.searchEnabled && p'.busyVisible == p.busyVisible
  {
    var size := GetPageSize(p);
    var totalPages := JavaDiv(totalResultCount, size);
    p.(text := query, lastQuery := Some(query), page := pageIndex, totalResults := totalResultCount,
       pageSize := size, nextEnabled := pageIndex < totalPages, previousEnabled := pageIndex != 0)
  }

  /** setBusy: while busy the search button is disabled and the busy label shown. */
  function SetBusy(p: Pane, busy: bool): (p': Pane)
    ensures p'.searchEnabled == !busy && p'.busyVisible == busy
    ensures p' == p.(searchEnabled := p'.searchEnabled, busyVisible := p'.busyVisible)
  {
    if busy then p.(searchEnabled := false, busyVisible := true)
    else p.(busyVisible := false, searchEnabled := true)
  }

  // ---------------------------------------------------------------- properties

  /** Before any search: no query, page and total 0, neither paging button enabled. */
  lemma InitialState()
    ensures Initial.page == 0 && Initial.totalResults == 0 && GetPageQuery(Initial).None?
    ensures !Initial.nextEnabled && !Initial.previousEnabled
    ensures Initial.searchEnabled && !Initial.busyVisible
    ensures GetPageSize(Initial) == 10
  {
  }

  /** The division law the next button rests on, for a non-negative total and page. */
  lemma {:induction false} BeforeLastWholePage(total: nat, size: int, page: nat)
    requires size > 0
    ensures page < total / size <==> (page + 1) * size <= total
  {
    var q := total / size;
    var rem := total % size;
    assert total == q * size + rem && 0 <= rem < size;
    if page < q {
      assert page + 1 <= q;
      assert (page + 1) * size <= q * size by {
        MulMonotone(page + 1, q, size);
      }
    } else {
      assert q + 1 <= page + 1;
      assert (q + 1) * size <= (page + 1) * size by {
        MulMonotone(q + 1, page + 1, size);
      }
      assert (q + 1) * size == q * size + size;
    }
  }

  lemma {:induction false} MulMonotone(a: int, b: int, c: nat)
    requires a <= b
    ensures a * c <= b * c
  {
    assert b * c - a * c == (b - a) * c;
  }

  /**
   * For a non-negative total and page, next is enabled exactly when the
   * following page's first hit, at offset (page + 1) * pageSize, would still
   * be within the whole pages of the total.
   */
  lemma NextIffWholePageFollows(p: Pane, query: string, total: nat, page: nat)
    ensures Update(p, query, total, page).nextEnabled <==> (page + 1) * GetPageSize(p) <= total
  {
    BeforeLastWholePage(total, GetPageSize(p), page);
  }

  /** A negative page (never requested through the buttons) enables next for any non-negative total. */
  lemma NextOnNegativePage(p: Pane, query: string, total: nat, page: int)
    requires page < 0
    ensures Update(p, query, total, page).nextEnabled
  {
  }

  /**
   * When the total is an exact multiple of the page size, next stays enabled
   * on the last non-empty page although the page after it holds no hit.
   */
  lemma NextOnLastFullPage(p: Pane, query: string, page: nat)
    ensures Update(p, query, (page + 1) * GetPageSize(p), page).nextEnabled
  {
    NextIffWholePageFollows(p, query, (page + 1) * GetPageSize(p), page);
  }

  /** The concrete case: 20 hits at 10 per page leave next enabled on page 1. */
  lemma TwentyHitsPageOne(p: Pane)
    requires p.selected == Ten
    ensures Update(p, "q", 20, 1).nextEnabled
  {
  }

  /** A page that holds the last hits, but not all of a page, disables next. */
  lemma LastPartialPage(p: Pane, query: string, total: nat, page: nat)
    requires page * GetPageSize(p) < total < (page + 1) * GetPageSize(p)
    ensures !Update(p, query, total, page).nextEnabled
  {
    NextIffWholePageFollows(p, query, total, page);
  }

  /** setBusy(false) undoes setBusy(true) on an idle pane; either call applied twice is applied once. */
  lemma BusyRoundTrip(p: Pane)
    requires p.searchEnabled && !p.busyVisible
    ensures SetBusy(SetBusy(p, true), false) == p
    ensures SetBusy(SetBusy(p, true), true) == SetBusy(p, true)
    ensures SetBusy(SetBusy(p, false), false) == SetBusy(p, false)
  {
  }

  /** The paging invariant: after any update, previous is enabled exactly off the first page. */
  predicate PagingConsistent(p: Pane)
  {
    (p.previousEnabled <==> p.page != 0) && p.pageSize > 0
    && (p.nextEnabled <==> p.page < JavaDiv(p.totalResults, p.pageSize))
  }

  /** Every update leaves the paging flags consistent with the recorded page, total and size. */
  lemma UpdateConsistent(p: Pane, query: string, total: int, page: int)
    ensures PagingConsistent(Update(p, query, total, page))
    ensures PagingConsistent(SetBusy(Update(p, query, total, page), true))
  {
  }
}
