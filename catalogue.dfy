/**
 * The catalogue: the records read from the data file and the id each one
 * receives when it is loaded (the `map` in loadGameData, js/script.js:44-57),
 * and the lookup of an entry by id (`allGamesData.find`, js/script.js:266).
 */
module Catalogue {
  import opened Wrappers
  import opened Text
  import opened Slug

  /**
   * One record of the data file: the fields the core reads. `price` is None
   * when the field is absent or not a string; the display-only fields are
   * not part of this model.
   */
  datatype Game = Game(name: Option<string>, price: Option<string>, steamLink: Option<string>)

  /** A catalogue entry: the record with the id assigned at load time. */
  datatype Entry = Entry(game: Game, id: string)

  const UnnamedBase := "unnamed-game"

  /** `game.name` is truthy: present and non-empty. */
  predicate HasName(g: Game) {
    g.name.Some? && g.name.value != []
  }

  /** The slug an id starts with: the name's slug, or the placeholder when there is none. */
  function BaseSlug(g: Game): (b: string)
    ensures b != [] && IsSlug(b)
  {
    var base := if HasName(g) then Slugify(g.name.value) else UnnamedBase;
    if base == [] then UnnamedBase else base
  }

  /** `${baseSlug}-${index}` */
  function EntryId(g: Game, index: nat): string {
    BaseSlug(g) + "-" + Decimal(index)
  }

  // ------------------------------------------------------------ id structure

  /** The text after the last '-' of `s` (all of `s` when it has none). */
  function AfterLastHyphen(s: string): string {
    if s == [] then []
    else if s[|s| - 1] == '-' then []
    else AfterLastHyphen(s[..|s| - 1]) + [s[|s| - 1]]
  }

  /** The position an id was assigned for: the number after its last '-'. */
  function IndexOfId(id: string): Option<nat> {
    var digits := AfterLastHyphen(id);
    if digits != [] && AllDigits(digits) then Some(DigitsValue(digits)) else None
  }

  lemma {:induction false} AfterLastHyphenOf(base: string, tail: string)
    requires forall i :: 0 <= i < |tail| ==> tail[i] != '-'
    ensures AfterLastHyphen(base + "-" + tail) == tail
  {
    var s := base + "-" + tail;
    if tail == [] {
      assert s[|s| - 1] == '-';
    } else {
      var t := tail[..|tail| - 1];
      assert s[..|s| - 1] == base + "-" + t;
      AfterLastHyphenOf(base, t);
      assert t + [tail[|tail| - 1]] == tail;
    }
  }

  /** Every id reads back as the position it was assigned for. */
  lemma IndexOfEntryId(g: Game, index: nat)
    ensures IndexOfId(EntryId(g, index)) == Some(index)
  {
    AfterLastHyphenOf(BaseSlug(g), Decimal(index));
    DecimalRoundTrip(index);
  }

  /** An id is itself a slug: the base, '-', then the decimal index. */
  lemma EntryIdIsSlug(g: Game, index: nat)
    ensures IsSlug(EntryId(g, index))
    ensures StartsWith(EntryId(g, index), BaseSlug(g) + "-")
  {
    var b := BaseSlug(g);
    var d := Decimal(index);
    SlugHyphenDigits(b, d);
    assert (b + "-" + d)[..|b + "-"|] == b + "-";
  }

  /** The placeholder base is used exactly when the name is missing or has no [A-Za-z0-9_] character. */
  lemma BaseSlugCases(g: Game)
    ensures (HasName(g) && exists i :: 0 <= i < |g.name.value| && IsWordChar(g.name.value[i])) ==>
      BaseSlug(g) == Slugify(g.name.value)
    ensures (!HasName(g) || forall i :: 0 <= i < |g.name.value| ==> !IsWordChar(g.name.value[i])) ==>
      BaseSlug(g) == UnnamedBase
  {
    if HasName(g) {
      SlugifyEmptyIff(g.name.value);
    }
  }

  // ------------------------------------------------------------ id assignment

  /**
   * The entries of a freshly loaded catalogue, in file order. Each keeps its
   * record; its id is a slug made of the record's base, '-' and a number
   * that reads back as its position, so ids are unique across the catalogue,
   * even for equal names.
   */
  function AssignIds(games: seq<Game>): (r: seq<Entry>)
    ensures |r| == |games|
    ensures forall i :: 0 <= i < |r| ==> r[i] == Entry(games[i], EntryId(games[i], i))
    ensures forall i :: 0 <= i < |r| ==>
      IsSlug(r[i].id) && StartsWith(r[i].id, BaseSlug(games[i]) + "-") && IndexOfId(r[i].id) == Some(i)
    ensures forall i, j :: 0 <= i < j < |r| ==> r[i].id != r[j].id
  {
    var r := seq(|games|, i requires 0 <= i < |games| => Entry(games[i], EntryId(games[i], i)));
    assert forall i :: 0 <= i < |r| ==>
      IsSlug(r[i].id) && StartsWith(r[i].id, BaseSlug(games[i]) + "-") && IndexOfId(r[i].id) == Some(i)
    by {
      forall i | 0 <= i < |r|
        ensures IsSlug(r[i].id) && StartsWith(r[i].id, BaseSlug(games[i]) + "-") && IndexOfId(r[i].id) == Some(i)
      {
        EntryIdIsSlug(games[i], i);
        IndexOfEntryId(games[i], i);
      }
    }
    r
  }

  // ------------------------------------------------------------------ lookup

  function FindFrom(games: seq<Entry>, id: string, k: nat): (r: Option<nat>)
    requires k <= |games|
    ensures r.Some? ==> k <= r.value < |games| && games[r.value].id == id
    ensures r.Some? ==> forall j :: k <= j < r.value ==> games[j].id != id
    ensures r.None? ==> forall j :: k <= j < |games| ==> games[j].id != id
    decreases |games| - k
  {
    if k == |games| then None
    else if games[k].id == id then Some(k)
    else FindFrom(games, id, k + 1)
  }

  /** `allGamesData.find(g => g.id === gameId)`: the position of the first entry with that id. */
  function FindById(games: seq<Entry>, id: string): (r: Option<nat>)
    ensures r.Some? ==> r.value < |games| && games[r.value].id == id
    ensures r.Some? ==> forall j :: 0 <= j < r.value ==> games[j].id != id
    ensures r.None? <==> forall j :: 0 <= j < |games| ==> games[j].id != id
  {
    FindFrom(games, id, 0)
  }

  /** In a loaded catalogue, looking up an entry's id finds that very entry. */
  lemma FindAssignedId(games: seq<Game>, i: nat)
    requires i < |games|
    ensures FindById(AssignIds(games), AssignIds(games)[i].id) == Some(i)
  {
    var r := AssignIds(games);
    assert forall j :: 0 <= j < i ==> r[j].id != r[i].id;
  }
}
