/**
 * handleRouteChange (js/script.js:230-313) as a function of the hash and
 * the catalogue, and the hash an item click writes (js/script.js:223-225).
 */
module Router {
  import opened Wrappers
  import opened Text
  import opened Slug
  import opened Catalogue
  import opened UriComponent

  const GamePrefix := "#game/"
  const GamesHash := "#games"
  const AboutHash := "#about"

  /** What a hash asks for. `BadEscape` is a '#game/' hash that decodeURIComponent rejects. */
  datatype Route = Detail(id: string) | BadEscape | List | About | Unknown

  function Classify(hash: string): Route {
    if StartsWith(hash, GamePrefix) then
      match Decode(hash[|GamePrefix|..])
      case Some(id) => Detail(id)
      case None => BadEscape
    else if hash == GamesHash then List
    else if hash == AboutHash || hash == [] then About
    else Unknown
  }

  /** The hash the router writes back: '#about' for the empty hash and for unknown ones. */
  function Rewrite(hash: string): Option<string> {
    if hash == [] || Classify(hash).Unknown? then Some(AboutHash) else None
  }

  /** Each kind of hash leads to its route, and to no other. */
  lemma ClassifyCases(hash: string)
    ensures Classify(hash) == List <==> hash == GamesHash
    ensures Classify(hash) == About <==> hash == AboutHash || hash == []
    ensures (Classify(hash).Detail? || Classify(hash) == BadEscape) <==> StartsWith(hash, GamePrefix)
    ensures Classify(hash).Detail? ==> Decode(hash[|GamePrefix|..]) == Some(Classify(hash).id)
    ensures Classify(hash) == Unknown <==>
      !StartsWith(hash, GamePrefix) && hash !in {GamesHash, AboutHash, []}
  {
    assert !StartsWith(GamesHash, GamePrefix) by { assert GamesHash[5] != GamePrefix[5]; }
    assert !StartsWith(AboutHash, GamePrefix) by { assert AboutHash[1] != GamePrefix[1]; }
  }

  /** The rewritten hash routes to the about section and is not rewritten again. */
  lemma RewriteSettles(hash: string)
    requires Rewrite(hash).Some?
    ensures Classify(Rewrite(hash).value) == About
    ensures Rewrite(Rewrite(hash).value) == None
  {
    ClassifyCases(AboutHash);
  }

  /** A paginated list hash is not a list hash: it falls back to the about section. */
  lemma PageHashIsUnknown()
    ensures Classify("#games/page/2") == Unknown
    ensures Rewrite("#games/page/2") == Some(AboutHash)
  {
    ClassifyCases("#games/page/2");
    assert "#games/page/2"[5] != GamePrefix[5];
  }

  // ------------------------------------------------------------ the detail view

  /** What the detail section holds. */
  datatype DetailContent = NoDetail | Shown(entry: Entry) | DataUnavailable(id: string) | NotFound(id: string)

  /**
   * The detail view for an id: an error when the catalogue is empty, the
   * first entry with that id, or the not-found message that schedules a
   * redirect to the list.
   */
  function DetailOutcome(games: seq<Entry>, id: string): DetailContent {
    if games == [] then DataUnavailable(id)
    else match FindById(games, id)
      case Some(i) => Shown(games[i])
      case None => NotFound(id)
  }

  lemma DetailOutcomeCases(games: seq<Entry>, id: string)
    ensures DetailOutcome(games, id) == DataUnavailable(id) <==> games == []
    ensures DetailOutcome(games, id).Shown? ==>
      DetailOutcome(games, id).entry in games && DetailOutcome(games, id).entry.id == id
    ensures DetailOutcome(games, id) == NotFound(id) <==>
      games != [] && forall e :: e in games ==> e.id != id
  {
    if games != [] && DetailOutcome(games, id) != NotFound(id) {
      var i := FindById(games, id).value;
      assert games[i] in games;
    }
  }

  // ------------------------------------------------------------ item clicks

  /** `#game/${encodeURIComponent(game.id)}` */
  function ClickHash(e: Entry): string {
    GamePrefix + Encode(e.id)
  }

  /** The hash of a click routes to the clicked id. */
  lemma ClickRoutes(e: Entry)
    ensures Classify(ClickHash(e)) == Detail(e.id)
  {
    var h := ClickHash(e);
    assert h[..|GamePrefix|] == GamePrefix;
    assert h[|GamePrefix|..] == Encode(e.id);
    DecodeEncode(e.id);
  }

  /** A loaded id needs no escaping: its click hash is '#game/' followed by the id itself. */
  lemma ClickHashOfLoadedId(games: seq<Game>, i: nat)
    requires i < |games|
    ensures ClickHash(AssignIds(games)[i]) == GamePrefix + AssignIds(games)[i].id
  {
    var id := AssignIds(games)[i].id;
    EntryIdIsSlug(games[i], i);
    forall j | 0 <= j < |id| ensures IsUnreserved(id[j]) {
      assert IsSlugChar(id[j]);
    }
    EncodeUnreserved(id);
  }

  /** Clicking an item of a loaded catalogue shows that very entry. */
  lemma ClickShowsEntry(games: seq<Game>, i: nat)
    requires i < |games|
    ensures Classify(ClickHash(AssignIds(games)[i])) == Detail(AssignIds(games)[i].id)
    ensures DetailOutcome(AssignIds(games), AssignIds(games)[i].id) == Shown(AssignIds(games)[i])
  {
    var entries := AssignIds(games);
    ClickRoutes(entries[i]);
    FindAssignedId(games, i);
  }
}
