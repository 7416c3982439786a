/**
 * The page: the state the script keeps (the catalogue, the hash, the
 * visible section, the active navigation button, the list and detail
 * containers, the pending redirect timers, the search and sort controls)
 * and the events that change it (js/script.js:37-69, 230-349). The pure
 * transitions specify the `Page` class, whose methods follow the source
 * step by step except where they carry the corrections of two defects:
 *  - the `loadFailed` flag, which the source does not keep, lets the list
 *    show the load-failure message (`LoadFailed`, `FilterAndPopulateGameList`);
 *    the source's own outcome is `GameList.ListOutcomeAsWritten`;
 *  - `NavGamesClick` routes even when the hash is already '#games', where
 *    the source's assignment fires no hashchange; the source's own
 *    behaviour is `AfterNavGamesAsWritten`.
 */
module App {
  import opened Wrappers
  import opened Text
  import opened Catalogue
  import opened Sorting
  import opened GameList
  import opened UriComponent
  import opened Router

  datatype Section = NoSection | AboutSection | ListSection | DetailSection

  /** The navigation button marked active. */
  datatype Nav = NoNav | AboutNav | GamesNav

  /** The list container: the loading message until something is rendered into it. */
  datatype ListPane = Loading | Rendered(view: ListView)

  datatype PageState = PageState(
    games: seq<Entry>,
    loadFailed: bool,
    hash: string,
    section: Section,
    nav: Nav,
    list: ListPane,
    detail: DetailContent,
    redirects: nat,
    searchValue: string,
    sortValue: string)

  /** The page before the data file is read: the loading message, no section chosen yet. */
  function Initial(hash: string, searchValue: string, sortValue: string): PageState {
    PageState([], false, hash, NoSection, NoNav, Loading, NoDetail, 0, searchValue, sortValue)
  }

  /** filterAndPopulateGameList: the list container redrawn from the current controls. */
  function RenderList(st: PageState): PageState {
    st.(list := Rendered(ListOutcome(st.loadFailed, st.games, st.searchValue, st.sortValue)))
  }

  /** The hash after the router's write-back, if it makes one. */
  function RewrittenHash(hash: string): string {
    match Rewrite(hash)
    case Some(h) => h
    case None => hash
  }

  /** handleRouteChange, with the hash it writes back for the empty and unknown hashes. */
  function RouteChange(st: PageState): PageState {
    match Classify(st.hash)
    case Detail(id) =>
      var d := DetailOutcome(st.games, id);
      st.(section := DetailSection, nav := GamesNav, detail := d,
          redirects := if d.NotFound? then st.redirects + 1 else st.redirects)
    case BadEscape => st.(section := NoSection, nav := NoNav)
    case List => RenderList(st).(section := ListSection, nav := GamesNav)
    case About => st.(section := AboutSection, nav := AboutNav, hash := RewrittenHash(st.hash))
    case Unknown => st.(section := AboutSection, nav := AboutNav, hash := RewrittenHash(st.hash))
  }

  /** Assigning `window.location.hash`: a hashchange, and so a routing, only when the hash differs. */
  function Navigate(st: PageState, h: string): PageState {
    if h == st.hash then st else RouteChange(st.(hash := h))
  }

  /**
   * The data file was read: ids are assigned and the current hash is routed.
   * That routing runs inside the load's `try`, so a hash whose id cannot be
   * decoded throws into the load's `catch`, which takes the failure path.
   */
  function AfterLoad(st: PageState, raw: seq<Game>): PageState {
    var routed := RouteChange(st.(games := AssignIds(raw)));
    if Classify(st.hash) == BadEscape then AfterLoadError(routed) else routed
  }

  /** The data file could not be read: the failure message, an empty catalogue, then routing. */
  function AfterLoadError(st: PageState): PageState {
    RouteChange(st.(list := Rendered(Message(LoadFailedMessage)), games := [], loadFailed := true))
  }

  function AfterSearch(st: PageState, value: string): PageState {
    RenderList(st.(searchValue := value))
  }

  function AfterSort(st: PageState, value: string): PageState {
    RenderList(st.(sortValue := value))
  }

  /**
   * The Games button as the source has it: it clears the controls and sets
   * the hash, which routes only when the hash was not already '#games'.
   */
  function AfterNavGamesAsWritten(st: PageState): PageState {
    Navigate(st.(searchValue := [], sortValue := "original"), GamesHash)
  }

  /** The Games button as intended: the cleared controls always redraw the list. */
  function AfterNavGames(st: PageState): PageState {
    var cleared := st.(searchValue := [], sortValue := "original");
    if cleared.hash == GamesHash then RouteChange(cleared) else Navigate(cleared, GamesHash)
  }

  /** The redirect timer of a not-found detail fires: back to the list. */
  function AfterRedirect(st: PageState): PageState
    requires st.redirects > 0
  {
    var s := st.(redirects := st.redirects - 1);
    if s.hash != GamesHash then Navigate(s, GamesHash) else RouteChange(s)
  }

  // ---------------------------------------------------------- the invariant

  /**
   * What is on screen agrees with the state: the list section shows the
   * list for the current controls, the detail section the outcome for the
   * hash's id, the about section an about hash, and the active button
   * matches the section.
   */
  ghost predicate Coherent(st: PageState) {
    && (st.section == ListSection ==>
          st.hash == GamesHash && st.list == Rendered(ListOutcome(st.loadFailed, st.games, st.searchValue, st.sortValue)))
    && (st.section == DetailSection ==>
          Classify(st.hash).Detail? && st.detail == DetailOutcome(st.games, Classify(st.hash).id))
    && (st.section == AboutSection ==> Classify(st.hash) == About && st.hash != [])
    && (st.nav == GamesNav <==> st.section == ListSection || st.section == DetailSection)
    && (st.nav == AboutNav <==> st.section == AboutSection)
  }

  /** Routing makes any state coherent. */
  lemma RouteCoherent(st: PageState)
    ensures Coherent(RouteChange(st))
  {
    ClassifyCases(st.hash);
    ClassifyCases(AboutHash);
  }

  lemma NavigateCoherent(st: PageState, h: string)
    requires Coherent(st)
    ensures Coherent(Navigate(st, h))
  {
    RouteCoherent(st.(hash := h));
  }

  lemma InitialCoherent(hash: string, searchValue: string, sortValue: string)
    ensures Coherent(Initial(hash, searchValue, sortValue))
  {
  }

  /** Loading the data file, successfully or not, leaves the page coherent. */
  lemma LoadKeepsCoherent(st: PageState, raw: seq<Game>)
    ensures Coherent(AfterLoad(st, raw)) && Coherent(AfterLoadError(st))
  {
    var routed := RouteChange(st.(games := AssignIds(raw)));
    RouteCoherent(st.(games := AssignIds(raw)));
    RouteCoherent(routed.(list := Rendered(Message(LoadFailedMessage)), games := [], loadFailed := true));
    RouteCoherent(st.(list := Rendered(Message(LoadFailedMessage)), games := [], loadFailed := true));
  }

  /** Typing a search or choosing a sort keeps the page coherent. */
  lemma ControlsKeepCoherent(st: PageState, value: string)
    requires Coherent(st)
    ensures Coherent(AfterSearch(st, value)) && Coherent(AfterSort(st, value))
  {
  }

  /** The Games button, as intended, keeps the page coherent. */
  lemma NavGamesKeepsCoherent(st: PageState)
    requires Coherent(st)
    ensures Coherent(AfterNavGames(st))
  {
    var cleared := st.(searchValue := [], sortValue := "original");
    RouteCoherent(cleared);
    RouteCoherent(cleared.(hash := GamesHash));
  }

  lemma RedirectKeepsCoherent(st: PageState)
    requires Coherent(st) && st.redirects > 0
    ensures Coherent(AfterRedirect(st))
  {
    var s := st.(redirects := st.redirects - 1);
    RouteCoherent(s);
    RouteCoherent(s.(hash := GamesHash));
  }

  // ------------------------------------------------------ what routing does

  /** Routing again changes nothing unless the first routing scheduled a redirect. */
  lemma RouteSettles(st: PageState)
    ensures RouteChange(st).redirects == st.redirects ==> RouteChange(RouteChange(st)) == RouteChange(st)
    ensures RouteChange(st).redirects == st.redirects || RouteChange(st).redirects == st.redirects + 1
  {
    ClassifyCases(st.hash);
    ClassifyCases(AboutHash);
  }

  /** A redirect is scheduled exactly when the hash names an id the loaded catalogue lacks. */
  lemma RedirectScheduledIff(st: PageState)
    ensures RouteChange(st).redirects == st.redirects + 1 <==>
      Classify(st.hash).Detail? && st.games != [] && forall e :: e in st.games ==> e.id != Classify(st.hash).id
  {
    if Classify(st.hash).Detail? {
      DetailOutcomeCases(st.games, Classify(st.hash).id);
    }
  }

  /** Navigation never cancels a pending redirect. */
  lemma NavigateKeepsRedirects(st: PageState, h: string)
    ensures Navigate(st, h).redirects >= st.redirects
  {
  }

  /** When a redirect fires the list is shown, for the controls as they are. */
  lemma RedirectShowsList(st: PageState)
    requires st.redirects > 0
    ensures AfterRedirect(st).section == ListSection && AfterRedirect(st).hash == GamesHash
    ensures AfterRedirect(st).redirects == st.redirects - 1
    ensures AfterRedirect(st).list == Rendered(ListOutcome(st.loadFailed, st.games, st.searchValue, st.sortValue))
  {
    ClassifyCases(GamesHash);
  }

  /** Clicking an item of the list shows that entry. */
  lemma ClickShowsItem(st: PageState, raw: seq<Game>, i: nat)
    requires Coherent(st) && st.section == ListSection
    requires st.games == AssignIds(raw) && i < |raw|
    ensures Navigate(st, ClickHash(st.games[i])).section == DetailSection
    ensures Navigate(st, ClickHash(st.games[i])).detail == Shown(st.games[i])
  {
    ClickShowsEntry(raw, i);
    var h := ClickHash(st.games[i]);
    assert h != st.hash by {
      assert h[5] == '/' && GamesHash[5] == 's';
    }
    assert Navigate(st, h) == RouteChange(st.(hash := h));
  }

  /** A failed load leaves the failure message on the list, however the controls are set. */
  lemma LoadErrorOnList(hash: string, searchValue: string, sortValue: string)
    requires hash == GamesHash
    ensures AfterLoadError(Initial(hash, searchValue, sortValue)).section == ListSection
    ensures AfterLoadError(Initial(hash, searchValue, sortValue)).list == Rendered(Message(LoadFailedMessage))
  {
    ClassifyCases(hash);
  }
  /**
   * Loaded data is discarded when the hash at load time holds an id that
   * cannot be decoded: the routing throws inside the load, and its failure
   * path shows the failure message, empties the catalogue and leaves no
   * section shown.
   */
  lemma LoadWithBadEscape(st: PageState, raw: seq<Game>)
    requires Classify(st.hash) == BadEscape
    ensures AfterLoad(st, raw).games == [] && AfterLoad(st, raw).loadFailed
    ensures AfterLoad(st, raw).list == Rendered(Message(LoadFailedMessage))
    ensures AfterLoad(st, raw).section == NoSection && AfterLoad(st, raw).nav == NoNav
    ensures AfterLoad(st, raw).hash == st.hash
  {
    var routed := RouteChange(st.(games := AssignIds(raw)));
    assert routed.hash == st.hash;
  }


  /**
   * The Games button as written leaves a stale list: on '#games' with the
   * search "zz" over a catalogue of one game named "a", the controls are
   * cleared but the list still says no game matches.
   */
  lemma NavGamesStaleList()
    ensures var e := Entry(Game(Some("a"), None, None), "a-0");
      var st := RenderList(PageState([e], false, GamesHash, ListSection, GamesNav, Loading, NoDetail, 0, "zz", "original"));
      Coherent(st) &&
      AfterNavGamesAsWritten(st).list == Rendered(Message(NoMatches)) &&
      !Coherent(AfterNavGamesAsWritten(st)) &&
      AfterNavGames(st).list == Rendered(Items([e]))
  {
    var e := Entry(Game(Some("a"), None, None), "a-0");
    var st := RenderList(PageState([e], false, GamesHash, ListSection, GamesNav, Loading, NoDetail, 0, "zz", "original"));
    assert SortKeyOf("original") == Original;
    assert st.list == Rendered(Message(NoMatches)) by {
      assert Lower("zz") == "zz";
      assert [e][1..] == [];
      assert Filter("zz", [e]) == [];
      SortOriginalKeepsOrder([]);
    }
    var cleared := st.(searchValue := [], sortValue := "original");
    assert AfterNavGamesAsWritten(st) == cleared;
    assert ListOutcome(false, [e], [], "original") == Items([e]) by {
      assert Lower([]) == [];
      IncludesEmpty(Lower("a"));
      assert [e][1..] == [];
      assert Filter([], [e]) == [e];
      SortOriginalKeepsOrder([e]);
    }
    ClassifyCases(GamesHash);
  }

  // ------------------------------------------------------------ the page

  class Page {
    var games: seq<Entry>
    var loadFailed: bool
    var hash: string
    var section: Section
    var nav: Nav
    var list: ListPane
    var detail: DetailContent
    var redirects: nat
    var searchValue: string
    var sortValue: string

    function State(): PageState
      reads this
    {
      PageState(games, loadFailed, hash, section, nav, list, detail, redirects, searchValue, sortValue)
    }

    constructor(initialHash: string, search: string, sort: string)
      ensures State() == Initial(initialHash, search, sort)
    {
      games, loadFailed, hash := [], false, initialHash;
      section, nav, list, detail := NoSection, NoNav, Loading, NoDetail;
      redirects, searchValue, sortValue := 0, search, sort;
    }

    method FilterAndPopulateGameList()
      modifies this
      ensures State() == RenderList(old(State()))
    {
      var view := FilterAndPopulate(loadFailed, games, searchValue, sortValue);
      list := Rendered(view);
    }

    /** `threw` reports the URIError of an undecodable id, which ends the routing early. */
    method HandleRouteChange() returns (threw: bool)
      modifies this
      ensures State() == RouteChange(old(State()))
      ensures threw <==> Classify(old(hash)) == BadEscape
    {
      threw := false;
      section, nav := NoSection, NoNav;
      if StartsWith(hash, GamePrefix) {
        var decoded := Decode(hash[|GamePrefix|..]);
        if decoded.None? {
          threw := true;
          return;
        }
        var id := decoded.value;
        nav := GamesNav;
        if |games| == 0 {
          detail, section := DataUnavailable(id), DetailSection;
          return;
        }
        var found := FindById(games, id);
        if found.Some? {
          detail := Shown(games[found.value]);
        } else {
          detail := NotFound(id);
          redirects := redirects + 1;
        }
        section := DetailSection;
      } else if hash == GamesHash {
        section := ListSection;
        FilterAndPopulateGameList();
        nav := GamesNav;
      } else if hash == AboutHash || hash == [] {
        section, nav := AboutSection, AboutNav;
        if hash == [] {
          hash := AboutHash;
        }
      } else {
        section, nav := AboutSection, AboutNav;
        hash := AboutHash;
      }
    }

    method SetHash(h: string)
      modifies this
      ensures State() == Navigate(old(State()), h)
    {
      if h != hash {
        hash := h;
        var _ := HandleRouteChange();
      }
    }

    method LoadSucceeded(raw: seq<Game>)
      modifies this
      ensures State() == AfterLoad(old(State()), raw)
    {
      games := AssignIds(raw);
      var threw := HandleRouteChange();
      if threw {
        LoadFailed();
      }
    }

    method LoadFailed()
      modifies this
      ensures State() == AfterLoadError(old(State()))
    {
      list := Rendered(Message(LoadFailedMessage));
      games, loadFailed := [], true;
      var _ := HandleRouteChange();
    }

    method SearchInput(value: string)
      modifies this
      ensures State() == AfterSearch(old(State()), value)
    {
      searchValue := value;
      FilterAndPopulateGameList();
    }

    method SortChange(value: string)
      modifies this
      ensures State() == AfterSort(old(State()), value)
    {
      sortValue := value;
      FilterAndPopulateGameList();
    }

    method NavAboutClick()
      modifies this
      ensures State() == Navigate(old(State()), AboutHash)
    {
      SetHash(AboutHash);
    }

    method NavGamesClick()
      modifies this
      ensures State() == AfterNavGames(old(State()))
    {
      searchValue, sortValue := [], "original";
      if hash == GamesHash {
        var _ := HandleRouteChange();
      } else {
        SetHash(GamesHash);
      }
    }

    method BackToListClick()
      modifies this
      ensures State() == Navigate(old(State()), GamesHash)
    {
      SetHash(GamesHash);
    }

    method ItemClick(e: Entry)
      modifies this
      ensures State() == Navigate(old(State()), ClickHash(e))
    {
      SetHash(ClickHash(e));
    }

    method RedirectTimerFires()
      requires redirects > 0
      modifies this
      ensures State() == AfterRedirect(old(State()))
    {
      redirects := redirects - 1;
      if hash != GamesHash {
        SetHash(GamesHash);
      } else {
        var _ := HandleRouteChange();
      }
    }
  }
}
