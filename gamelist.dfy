/**
 * filterAndPopulateGameList (js/script.js:145-204): the search filter, the
 * sort, and the choice between the list of entries and one of the
 * messages the list container can show.
 */
module GameList {
  import opened Text
  import opened Catalogue
  import opened Sorting

  /** The filter of the list: a truthy name whose lower-case form contains the term. */
  predicate Matches(term: string, e: Entry) {
    HasName(e.game) && Includes(Lower(e.game.name.value), term)
  }

  /** `allGamesData.filter(...)`: the matching entries, in catalogue order. */
  function Filter(term: string, games: seq<Entry>): (r: seq<Entry>)
    ensures |r| <= |games|
    ensures forall e :: e in r <==> e in games && Matches(term, e)
  {
    if games == [] then []
    else (if Matches(term, games[0]) then [games[0]] else []) + Filter(term, games[1..])
  }

  /** Filtering distributes over concatenation, so it keeps the catalogue order. */
  lemma {:induction false} FilterAppend(term: string, a: seq<Entry>, b: seq<Entry>)
    ensures Filter(term, a + b) == Filter(term, a) + Filter(term, b)
  {
    if a == [] {
      assert a + b == b;
    } else {
      var head := if Matches(term, a[0]) then [a[0]] else [];
      var rest := a[1..] + b;
      assert (a + b)[1..] == rest;
      assert (a + b)[0] == a[0];
      FilterAppend(term, a[1..], b);
      calc {
        Filter(term, a + b);
        head + Filter(term, rest);
        head + (Filter(term, a[1..]) + Filter(term, b));
        (head + Filter(term, a[1..])) + Filter(term, b);
        Filter(term, a) + Filter(term, b);
      }
    }
  }

  /** Each matching entry is kept as often as it occurs; the others are dropped. */
  lemma {:induction false} FilterCounts(term: string, games: seq<Entry>, e: Entry)
    ensures multiset(Filter(term, games))[e] == if Matches(term, e) then multiset(games)[e] else 0
  {
    if games != [] {
      FilterCounts(term, games[1..], e);
      assert games == [games[0]] + games[1..];
    }
  }

  /** An empty search keeps every entry with a name. */
  lemma EmptySearchKeepsNamed(e: Entry)
    ensures Matches([], e) <==> HasName(e.game)
  {
    if HasName(e.game) {
      IncludesEmpty(Lower(e.game.name.value));
    }
  }

  /** Typing more of a search term only narrows the list. */
  lemma FilterNarrows(term: string, longer: string, games: seq<Entry>)
    requires Includes(longer, term)
    ensures forall e :: e in Filter(longer, games) ==> e in Filter(term, games)
  {
    forall e | e in Filter(longer, games)
      ensures e in Filter(term, games)
    {
      IncludesTransitive(Lower(e.game.name.value), longer, term);
    }
  }

  // ------------------------------------------------------------ the view

  /** The messages the list container can hold instead of entries. */
  datatype ListMessage = LoadFailedMessage | EmptySource | NoMatches | NothingToDisplay

  datatype ListView = Message(kind: ListMessage) | Items(games: seq<Entry>)

  /** The entries shown for a search and a sort selection, before any message is chosen. */
  function VisibleEntries(games: seq<Entry>, searchValue: string, sortValue: string): seq<Entry> {
    SortEntries(SortKeyOf(sortValue), Filter(Lower(searchValue), games))
  }

  /**
   * The list as the source computes it. The container is emptied before it
   * is asked for a message paragraph, so an empty catalogue always shows
   * "No games found in the data source", even after a failed load.
   */
  function ListOutcomeAsWritten(games: seq<Entry>, searchValue: string, sortValue: string): ListView {
    var shown := VisibleEntries(games, searchValue, sortValue);
    if games == [] then Message(EmptySource)
    else if shown == [] then
      if Lower(searchValue) != [] then Message(NoMatches) else Message(NothingToDisplay)
    else Items(shown)
  }

  /** The list as intended: after a failed load the load-failure message stays. */
  function ListOutcome(loadFailed: bool, games: seq<Entry>, searchValue: string, sortValue: string): ListView {
    if loadFailed && games == [] then Message(LoadFailedMessage)
    else ListOutcomeAsWritten(games, searchValue, sortValue)
  }

  /** What each outcome means, in terms of the catalogue, the search and the sort. */
  lemma ListOutcomeCases(loadFailed: bool, games: seq<Entry>, searchValue: string, sortValue: string)
    ensures var v := ListOutcome(loadFailed, games, searchValue, sortValue);
      (v == Message(LoadFailedMessage) <==> loadFailed && games == []) &&
      (v == Message(EmptySource) <==> !loadFailed && games == []) &&
      (v == Message(NoMatches) <==>
        games != [] && Lower(searchValue) != [] && forall e :: e in games ==> !Matches(Lower(searchValue), e)) &&
      (v == Message(NothingToDisplay) <==>
        games != [] && Lower(searchValue) == [] && forall e :: e in games ==> !HasName(e.game)) &&
      (v.Items? ==> v.games != [] && multiset(v.games) == multiset(Filter(Lower(searchValue), games)))
  {
    var term := Lower(searchValue);
    var filtered := Filter(term, games);
    var shown := VisibleEntries(games, searchValue, sortValue);
    assert multiset(shown) == multiset(filtered);
    assert shown == [] <==> filtered == [] by {
      if filtered != [] {
        assert filtered[0] in multiset(filtered);
      }
    }
    assert filtered == [] <==> forall e :: e in games ==> !Matches(term, e) by {
      if filtered != [] {
        assert filtered[0] in filtered;
      }
    }
    forall e ensures Matches([], e) <==> HasName(e.game) {
      EmptySearchKeepsNamed(e);
    }
  }

  /** Without a failed load the intended list is the one the source computes. */
  lemma ListOutcomeAgrees(games: seq<Entry>, searchValue: string, sortValue: string)
    ensures ListOutcome(false, games, searchValue, sortValue) == ListOutcomeAsWritten(games, searchValue, sortValue)
  {
  }

  /** The source replaces the load-failure message: the as-written list after a failed load. */
  lemma LoadFailureMessageReplaced(searchValue: string, sortValue: string)
    ensures ListOutcomeAsWritten([], searchValue, sortValue) == Message(EmptySource)
    ensures ListOutcome(true, [], searchValue, sortValue) == Message(LoadFailedMessage)
  {
  }

  /**
   * Filters, copies and sorts the entries as the source does, and chooses
   * what the list shows.
   */
  method FilterAndPopulate(loadFailed: bool, games: seq<Entry>, searchValue: string, sortValue: string)
    returns (view: ListView)
    ensures view == ListOutcome(loadFailed, games, searchValue, sortValue)
  {
    var term := Lower(searchValue);
    var filtered := Filter(term, games);
    var sorted := new Entry[|filtered|](i requires 0 <= i < |filtered| => filtered[i]);
    assert sorted[..] == filtered;
    var key := SortKeyOf(sortValue);
    if key != Original {
      SortEntriesInPlace(sorted, key);
    } else {
      SortOriginalKeepsOrder(filtered);
    }
    if games == [] {
      view := if loadFailed then Message(LoadFailedMessage) else Message(EmptySource);
    } else if sorted.Length == 0 {
      view := if term != [] then Message(NoMatches) else Message(NothingToDisplay);
    } else {
      view := Items(sorted[..]);
    }
  }
}
