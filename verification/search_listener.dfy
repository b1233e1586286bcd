/**
 * SearchListener: one search action. It works out the query and page from
 * the kind of action, drops a blank query, runs the search through an
 * oracle standing for the searcher, records the query in the history,
 * updates the pane and shows the page of hits, and clears the busy state on
 * both the success and the error path.
 */
module SearchListener {
  import opened Wrappers
  import opened JavaLang
  import SearchResults
  import SearchHistory
  import SearchPane

  /** The kinds of action a listener is registered for. */
  datatype SearchType = General | PageForward | PageBackward | Selection | FromSearchHistory | FromSystemClipboard

  /** The system clipboard: text, no text flavour, or a transfer that throws. */
  datatype Clipboard = NoText | Text(s: string) | TransferFails

  /**
   * What the searcher does with (query, page, pageSize): a page of results,
   * after which closing the searcher may still throw an IOException; or a
   * ParseException or an IOException before any result.
   */
  datatype FindOutcome = Found(results: SearchResults.Results, closeFails: bool) | ParseError | IoError

  type Finder = (string, int, int) -> FindOutcome

  /** The parts of the window the action reads and writes. */
  datatype Window = Window(
    pane: SearchPane.Pane,
    history: seq<string>,
    content: string,              // the HTML shown in the content pane
    contentBusy: bool,            // the content pane's wait cursor
    selection: Option<string>,    // the content pane's selected text; None is null
    errorDialogs: nat)            // "Search Error" dialogs shown so far

  /** getClipboardContents: the text on the clipboard, or "" when there is none or it cannot be read. */
  function ClipboardContents(c: Clipboard): (s: string)
    ensures c.Text? ==> s == c.s
    ensures !c.Text? ==> s == ""
  {
    match c
    case Text(t) => t
    case _ => ""
  }

  /**
   * The switch: the query and page an action asks for. None stands for a
   * null query (no query displayed yet, or no selection), on which the
   * following trim throws.
   */
  function Request(w: Window, kind: SearchType, menuText: string, clipboard: Clipboard): (r: (Option<string>, int))
    ensures kind == PageForward ==> r == (w.pane.lastQuery, w.pane.page + 1)
    ensures kind == PageBackward ==> r == (w.pane.lastQuery, w.pane.page - 1)
    ensures kind !in {PageForward, PageBackward} ==> r.1 == 0 && r.0.Some? == (kind != Selection || w.selection.Some?)
  {
    match kind
    case General => (Some(w.pane.text), 0)
    case PageForward => (SearchPane.GetPageQuery(w.pane), w.pane.page + 1)
    case PageBackward => (SearchPane.GetPageQuery(w.pane), w.pane.page - 1)
    case Selection => (w.selection, 0)
    case FromSearchHistory => (Some(menuText), 0)
    case FromSystemClipboard => (Some(ClipboardContents(clipboard)), 0)
  }

  /** The guard: a query that trims to nothing is not searched. */
  predicate Blank(query: string)
  {
    |Trim(query)| < 1
  }

  /**
   * actionPerformed. A null query throws NullPointerException on trim before
   * anything changes; a blank one returns at once. Otherwise both panes turn
   * busy, the search runs, and on success the query joins the history, the
   * pane records the results' query, total and page, and the page of hits is
   * shown; an IOException from closing the searcher is reported after that.
   * A parse or I/O error from the search is reported and changes nothing else.
   * Both panes leave the busy state at the end.
   */
  function ActionPerformed(w: Window, kind: SearchType, menuText: string, clipboard: Clipboard, find: Finder)
    : (r: Result<Window, Exception>)
    ensures r.Failure? <==> Request(w, kind, menuText, clipboard).0.None?
    ensures r.Failure? ==> r.error == NullPointer
    ensures r.Success? ==> !r.value.contentBusy || r.value == w
    ensures r.Success? && r.value != w ==> r.value.pane.searchEnabled && !r.value.pane.busyVisible
    ensures r.Success? ==> r.value.selection == w.selection && r.value.errorDialogs >= w.errorDialogs
  {
    var pageSize := SearchPane.GetPageSize(w.pane);
    var (query, page) := Request(w, kind, menuText, clipboard);
    match query
    case None => Failure(NullPointer)
    case Some(q) =>
      if Blank(q) then Success(w)
      else
        var busy := w.(contentBusy := true, pane := SearchPane.SetBusy(w.pane, true));
        var done := match find(q, page, pageSize)
          case Found(results, closeFails) =>
            busy.(history := SearchHistory.AddQuery(busy.history, q),
                  pane := SearchPane.Update(busy.pane, results.query, results.total, results.page),
                  content := SearchResults.HtmlOf(results.docs),
                  errorDialogs := busy.errorDialogs + (if closeFails then 1 else 0))
          case _ =>
            busy.(errorDialogs := busy.errorDialogs + 1);
        Success(done.(contentBusy := false, pane := SearchPane.SetBusy(done.pane, false)))
  }

  // ---------------------------------------------------------------- properties

  /** A blank query is dropped before the search: nothing changes, whatever the searcher would do. */
  lemma BlankQueryIgnored(w: Window, kind: SearchType, menuText: string, clipboard: Clipboard, find: Finder, find': Finder)
    requires Request(w, kind, menuText, clipboard).0.Some?
    requires Blank(Request(w, kind, menuText, clipboard).0.value)
    ensures ActionPerformed(w, kind, menuText, clipboard, find) == Success(w)
    ensures ActionPerformed(w, kind, menuText, clipboard, find) == ActionPerformed(w, kind, menuText, clipboard, find')
  {
  }

  /** A clipboard without text (or whose transfer fails) yields "", which the guard rejects. */
  lemma ClipboardWithoutTextIgnored(w: Window, menuText: string, clipboard: Clipboard, find: Finder)
    requires !clipboard.Text?
    ensures ActionPerformed(w, FromSystemClipboard, menuText, clipboard, find) == Success(w)
  {
    assert Trim("") == "";
  }

  /** A general search asks for page 0 of the text in the search field. */
  lemma GeneralSearch(w: Window, menuText: string, clipboard: Clipboard, find: Finder)
    requires !Blank(w.pane.text)
    ensures var r := ActionPerformed(w, General, menuText, clipboard, find);
            && r.Success?
            && (find(w.pane.text, 0, SearchPane.GetPageSize(w.pane)).Found? ==>
                  r.value.history == SearchHistory.AddQuery(w.history, w.pane.text))
  {
  }

  /**
   * On success the query becomes the newest history entry, the pane shows the
   * results' query, total and page, the content is the results' HTML, and the
   * busy state is cleared.
   */
  lemma SuccessPath(w: Window, kind: SearchType, menuText: string, clipboard: Clipboard, find: Finder)
    requires var (q, page) := Request(w, kind, menuText, clipboard);
             q.Some? && !Blank(q.value) && find(q.value, page, SearchPane.GetPageSize(w.pane)).Found?
    ensures var (q, page) := Request(w, kind, menuText, clipboard);
            var res := find(q.value, page, SearchPane.GetPageSize(w.pane)).results;
            var w' := ActionPerformed(w, kind, menuText, clipboard, find).value;
            && SearchHistory.PreviousQuery(w'.history) == Success(q.value)
            && SearchPane.GetPageQuery(w'.pane) == Some(res.query)
            && w'.pane.page == res.page && w'.pane.totalResults == res.total
            && w'.content == SearchResults.HtmlOf(res.docs)
            && !w'.contentBusy && w'.pane.searchEnabled && !w'.pane.busyVisible
  {
    var (q, page) := Request(w, kind, menuText, clipboard);
    SearchHistory.PreviousIsLatest(w.history, q.value);
  }

  /** On a parse or I/O error the history, the content and the paging state are untouched; one dialog is shown. */
  lemma ErrorPath(w: Window, kind: SearchType, menuText: string, clipboard: Clipboard, find: Finder)
    requires var (q, page) := Request(w, kind, menuText, clipboard);
             q.Some? && !Blank(q.value) && !find(q.value, page, SearchPane.GetPageSize(w.pane)).Found?
    requires w.pane.searchEnabled && !w.pane.busyVisible && !w.contentBusy
    ensures ActionPerformed(w, kind, menuText, clipboard, find) == Success(w.(errorDialogs := w.errorDialogs + 1))
  {
    SearchPane.BusyRoundTrip(w.pane);
  }

  // ---------------------------------------------------------------- paging through the buttons

  /**
   * What the window guarantees between actions when the searcher answers with
   * the page it was asked for: the page is not negative, previous is enabled
   * exactly off the first page, and a paging button is enabled only once a
   * query has been displayed.
   */
  predicate PagingState(p: SearchPane.Pane)
  {
    && p.page >= 0
    && (p.previousEnabled <==> p.page != 0)
    && (p.nextEnabled || p.previousEnabled ==> p.lastQuery.Some?)
  }

  /** The searcher returns results for the page it was asked for. */
  ghost predicate EchoesPage(find: Finder)
  {
    forall q, page, size :: find(q, page, size).Found? ==> find(q, page, size).results.page == page
  }

  /** An action can fire: the paging buttons only when they are enabled. */
  predicate CanFire(p: SearchPane.Pane, kind: SearchType)
  {
    && (kind == PageForward ==> p.nextEnabled)
    && (kind == PageBackward ==> p.previousEnabled)
  }

  lemma InitialPaging()
    ensures PagingState(SearchPane.Initial)
  {
  }

  /** The page an enabled action asks for is never negative, and a paging action always has a query. */
  lemma RequestedPageNotNegative(w: Window, kind: SearchType, menuText: string, clipboard: Clipboard)
    requires PagingState(w.pane) && CanFire(w.pane, kind)
    ensures Request(w, kind, menuText, clipboard).1 >= 0
    ensures kind in {PageForward, PageBackward} ==> Request(w, kind, menuText, clipboard).0.Some?
  {
  }

  /**
   * Any action that can fire keeps the paging state, when the searcher echoes
   * the page; only a selection search can throw, when nothing is selected.
   */
  lemma ActionKeepsPaging(w: Window, kind: SearchType, menuText: string, clipboard: Clipboard, find: Finder)
    requires PagingState(w.pane) && CanFire(w.pane, kind) && EchoesPage(find)
    ensures kind != Selection ==> ActionPerformed(w, kind, menuText, clipboard, find).Success?
    ensures ActionPerformed(w, kind, menuText, clipboard, find).Success? ==>
              PagingState(ActionPerformed(w, kind, menuText, clipboard, find).value.pane)
  {
    RequestedPageNotNegative(w, kind, menuText, clipboard);
    var (q, page) := Request(w, kind, menuText, clipboard);
    var size := SearchPane.GetPageSize(w.pane);
    if q.Some? && !Blank(q.value) && find(q.value, page, size).Found? {
      assert find(q.value, page, size).results.page == page;
    }
  }

  /** After a displayed page, the next and previous buttons ask for the neighbouring pages of the same query. */
  lemma PagingFollowsUpdate(w: Window, query: string, total: int, page: int, menuText: string, clipboard: Clipboard)
    ensures var w' := w.(pane := SearchPane.Update(w.pane, query, total, page));
            && Request(w', PageForward, menuText, clipboard) == (Some(query), page + 1)
            && Request(w', PageBackward, menuText, clipboard) == (Some(query), page - 1)
            && Request(w', General, menuText, clipboard) == (Some(query), 0)
  {
  }
}
