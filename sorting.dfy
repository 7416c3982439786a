/**
 * The sort step of filterAndPopulateGameList (js/script.js:153-179): the
 * comparator for each value of the sort selector, each shown consistent,
 * so that the stable sort of the module StableSort applies to it.
 */
module Sorting {
  import opened Catalogue
  import opened Price
  import opened StableSort

  /** The sort keys; any selector value the switch does not list sorts nothing, like 'original'. */
  datatype SortKey = Original | PriceAsc | PriceDesc | AlphaAsc | AlphaDesc

  function SortKeyOf(value: string): SortKey {
    if value == "price-asc" then PriceAsc
    else if value == "price-desc" then PriceDesc
    else if value == "alpha-asc" then AlphaAsc
    else if value == "alpha-desc" then AlphaDesc
    else Original
  }

  /** `game.name || ""` */
  function NameOrEmpty(e: Entry): string {
    if e.game.name.Some? then e.game.name.value else ""
  }

  function PriceOf(e: Entry): PriceKey {
    ParsePrice(e.game.price)
  }

  /** The sign of `a.localeCompare(b)`, taken as lexicographic order of code points. */
  function LexCompare(a: string, b: string): int
    decreases |a|
  {
    if a == [] && b == [] then 0
    else if a == [] then -1
    else if b == [] then 1
    else if a[0] < b[0] then -1
    else if a[0] > b[0] then 1
    else LexCompare(a[1..], b[1..])
  }

  /** The sign of the comparator the source passes to `sort` for key `k`; negative puts `a` first. */
  function Compare(k: SortKey, a: Entry, b: Entry): int {
    match k
    case Original => 0
    case PriceAsc => PriceCompare(PriceOf(a), PriceOf(b))
    case PriceDesc => PriceCompare(PriceOf(b), PriceOf(a))
    case AlphaAsc => LexCompare(NameOrEmpty(a), NameOrEmpty(b))
    case AlphaDesc => LexCompare(NameOrEmpty(b), NameOrEmpty(a))
  }

  // -------------------------------------------- each comparator is consistent

  lemma {:induction false} LexCompareAntisymmetric(a: string, b: string)
    ensures LexCompare(a, b) == -LexCompare(b, a)
    decreases |a|
  {
    if a != [] && b != [] && a[0] == b[0] {
      LexCompareAntisymmetric(a[1..], b[1..]);
    }
  }

  lemma {:induction false} LexCompareZero(a: string, b: string)
    ensures LexCompare(a, b) == 0 <==> a == b
    decreases |a|
  {
    if a != [] && b != [] && a[0] == b[0] {
      LexCompareZero(a[1..], b[1..]);
      assert a == [a[0]] + a[1..] && b == [b[0]] + b[1..];
    }
  }

  lemma {:induction false} LexCompareTransitive(a: string, b: string, c: string)
    requires LexCompare(a, b) <= 0 && LexCompare(b, c) <= 0
    ensures LexCompare(a, c) <= 0
    decreases |a|
  {
    if a != [] && b != [] && c != [] && a[0] == b[0] == c[0] {
      LexCompareTransitive(a[1..], b[1..], c[1..]);
    }
  }

  lemma CompareAntisymmetric(k: SortKey, a: Entry, b: Entry)
    ensures Compare(k, a, b) == -Compare(k, b, a)
  {
    LexCompareAntisymmetric(NameOrEmpty(a), NameOrEmpty(b));
  }

  lemma CompareTransitive(k: SortKey, a: Entry, b: Entry, c: Entry)
    requires Compare(k, a, b) <= 0 && Compare(k, b, c) <= 0
    ensures Compare(k, a, c) <= 0
  {
    match k
    case AlphaAsc => LexCompareTransitive(NameOrEmpty(a), NameOrEmpty(b), NameOrEmpty(c));
    case AlphaDesc => LexCompareTransitive(NameOrEmpty(c), NameOrEmpty(b), NameOrEmpty(a));
    case _ =>
  }

  /** The comparator the source passes to `sort` for key `k`. */
  function Comparator(k: SortKey): (Entry, Entry) -> int {
    (a: Entry, b: Entry) => Compare(k, a, b)
  }

  /** Every comparator of the source is consistent, so the stable sort is well defined. */
  lemma ComparatorConsistent(k: SortKey)
    ensures Consistent(Comparator(k))
  {
    forall a, b ensures Compare(k, a, b) == -Compare(k, b, a) {
      CompareAntisymmetric(k, a, b);
    }
    forall a, b, c | Compare(k, a, b) <= 0 && Compare(k, b, c) <= 0
      ensures Compare(k, a, c) <= 0
    {
      CompareTransitive(k, a, b, c);
    }
  }

  /** The entries in the order the selector asks for. */
  function SortEntries(k: SortKey, s: seq<Entry>): (r: seq<Entry>)
    ensures multiset(r) == multiset(s)
    ensures forall i, j :: 0 <= i < j < |r| ==> Compare(k, r[i], r[j]) <= 0
  {
    ComparatorConsistent(k);
    SortByPermutes(Comparator(k), s);
    SortBySorted(Comparator(k), s);
    SortBy(Comparator(k), s)
  }

  /** Entries that tie under `k` keep the order they had in the catalogue. */
  lemma SortEntriesStable(k: SortKey, s: seq<Entry>, y: Entry)
    ensures Ties(Comparator(k), SortEntries(k, s), y) == Ties(Comparator(k), s, y)
  {
    ComparatorConsistent(k);
    SortByStable(Comparator(k), s, y);
  }

  /** 'original' (and any key the switch does not list) leaves the order as it is. */
  lemma SortOriginalKeepsOrder(s: seq<Entry>)
    ensures SortEntries(Original, s) == s
  {
    SortByAllTies(Comparator(Original), s);
  }

  /** price-asc puts Infinity (a missing or unparseable price) last; price-desc puts it first. */
  lemma PriceSortsPlaceInfinity(s: seq<Entry>)
    ensures forall i, j :: 0 <= i < j < |SortEntries(PriceAsc, s)| && PriceOf(SortEntries(PriceAsc, s)[i]).Infinite? ==>
      PriceOf(SortEntries(PriceAsc, s)[j]).Infinite?
    ensures forall i, j :: 0 <= i < j < |SortEntries(PriceDesc, s)| && PriceOf(SortEntries(PriceDesc, s)[j]).Infinite? ==>
      PriceOf(SortEntries(PriceDesc, s)[i]).Infinite?
  {
  }

  /** alpha-asc orders the names (a missing name read as "") so that no name precedes a smaller one. */
  lemma AlphaSortOrdersNames(s: seq<Entry>)
    ensures forall i, j :: 0 <= i < j < |SortEntries(AlphaAsc, s)| ==>
      LexCompare(NameOrEmpty(SortEntries(AlphaAsc, s)[i]), NameOrEmpty(SortEntries(AlphaAsc, s)[j])) <= 0
    ensures forall i, j :: 0 <= i < j < |SortEntries(AlphaDesc, s)| ==>
      LexCompare(NameOrEmpty(SortEntries(AlphaDesc, s)[j]), NameOrEmpty(SortEntries(AlphaDesc, s)[i])) <= 0
  {
  }

  /** Any stable sort with the source's comparator yields `SortEntries`. */
  lemma SortEntriesUnique(k: SortKey, s: seq<Entry>, r: seq<Entry>)
    requires forall i, j :: 0 <= i < j < |r| ==> Compare(k, r[i], r[j]) <= 0
    requires forall y :: Ties(Comparator(k), r, y) == Ties(Comparator(k), s, y)
    ensures r == SortEntries(k, s)
  {
    ComparatorConsistent(k);
    StableSortUnique(Comparator(k), s, r);
  }

  /** Sorts the entries of `a` in place in the order the selector asks for. */
  method SortEntriesInPlace(a: array<Entry>, k: SortKey)
    modifies a
    ensures a[..] == SortEntries(k, old(a[..]))
  {
    SortInPlace(a, Comparator(k));
  }
}
