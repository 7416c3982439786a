/**
 * A stable sort by a comparator, as Array.prototype.sort performs it
 * (section 23.1.3.30 of ECMA-262: the sort is stable, and its result is
 * defined when the comparator is consistent). `SortBy` specifies it by
 * insertion, `StableSortUnique` shows that every stable sort yields the
 * same sequence, and `SortInPlace` carries it out on an array.
 */
module StableSort {
  /**
   * A consistent comparator: swapping the arguments negates the result,
   * and "not after" is transitive. Ties are then an equivalence.
   */
  ghost predicate Consistent<T(!new)>(cmp: (T, T) -> int) {
    (forall a, b :: cmp(a, b) == -cmp(b, a)) &&
    (forall a, b, c :: cmp(a, b) <= 0 && cmp(b, c) <= 0 ==> cmp(a, c) <= 0)
  }

  lemma Antisymmetric<T(!new)>(cmp: (T, T) -> int, a: T, b: T)
    requires Consistent(cmp)
    ensures cmp(a, b) == -cmp(b, a)
  {
  }

  lemma Transitive<T(!new)>(cmp: (T, T) -> int, a: T, b: T, c: T)
    requires Consistent(cmp) && cmp(a, b) <= 0 && cmp(b, c) <= 0
    ensures cmp(a, c) <= 0
  {
  }

  /** Ties are an equivalence: `a` ties with `c` when both tie with `b`. */
  lemma TieTransitive<T(!new)>(cmp: (T, T) -> int, a: T, b: T, c: T)
    requires Consistent(cmp)
    requires cmp(a, b) == 0 && cmp(b, c) == 0
    ensures cmp(a, c) == 0
  {
    Transitive(cmp, a, b, c);
    Antisymmetric(cmp, a, b);
    Antisymmetric(cmp, b, c);
    Transitive(cmp, c, b, a);
    Antisymmetric(cmp, a, c);
  }

  // ------------------------------------------------------- the stable sort

  /** Every element is placed no later than the ones after it. */
  ghost predicate Sorted<T>(cmp: (T, T) -> int, s: seq<T>) {
    forall i, j :: 0 <= i < j < |s| ==> cmp(s[i], s[j]) <= 0
  }

  /** The elements of `s` that tie with `y`, in their order in `s`. */
  function Ties<T>(cmp: (T, T) -> int, s: seq<T>, y: T): seq<T> {
    if s == [] then []
    else Ties(cmp, s[..|s| - 1], y) + (if cmp(s[|s| - 1], y) == 0 then [s[|s| - 1]] else [])
  }

  /** Insertion of `x` into a sorted `t`: after every element that does not come strictly after it. */
  function Insert<T>(cmp: (T, T) -> int, t: seq<T>, x: T): seq<T> {
    if t == [] || cmp(t[|t| - 1], x) <= 0 then t + [x]
    else Insert(cmp, t[..|t| - 1], x) + [t[|t| - 1]]
  }

  /** The stable sort of `s` by `cmp`. */
  function SortBy<T>(cmp: (T, T) -> int, s: seq<T>): seq<T> {
    if s == [] then [] else Insert(cmp, SortBy(cmp, s[..|s| - 1]), s[|s| - 1])
  }

  lemma {:induction false} InsertPermutes<T>(cmp: (T, T) -> int, t: seq<T>, x: T)
    ensures multiset(Insert(cmp, t, x)) == multiset(t) + multiset{x}
  {
    if t != [] && cmp(t[|t| - 1], x) > 0 {
      InsertPermutes(cmp, t[..|t| - 1], x);
      assert t == t[..|t| - 1] + [t[|t| - 1]];
    }
  }

  /** Every key sorts to a permutation of its input. */
  lemma {:induction false} SortByPermutes<T>(cmp: (T, T) -> int, s: seq<T>)
    ensures multiset(SortBy(cmp, s)) == multiset(s)
  {
    if s != [] {
      SortByPermutes(cmp, s[..|s| - 1]);
      InsertPermutes(cmp, SortBy(cmp, s[..|s| - 1]), s[|s| - 1]);
      assert s == s[..|s| - 1] + [s[|s| - 1]];
    }
  }

  /** No element of `s` sorts strictly after `z`. */
  ghost predicate NoneAfter<T>(cmp: (T, T) -> int, s: seq<T>, z: T) {
    forall m :: 0 <= m < |s| ==> cmp(s[m], z) <= 0
  }

  lemma {:induction false} InsertNotAfter<T>(cmp: (T, T) -> int, t: seq<T>, x: T, z: T)
    requires NoneAfter(cmp, t, z) && cmp(x, z) <= 0
    ensures NoneAfter(cmp, Insert(cmp, t, x), z)
  {
    if t != [] && cmp(t[|t| - 1], x) > 0 {
      InsertNotAfter(cmp, t[..|t| - 1], x, z);
    }
  }

  lemma {:induction false} InsertSorted<T(!new)>(cmp: (T, T) -> int, t: seq<T>, x: T)
    requires Consistent(cmp)
    requires Sorted(cmp, t)
    ensures Sorted(cmp, Insert(cmp, t, x))
  {
    if t == [] {
    } else if cmp(t[|t| - 1], x) <= 0 {
      var r := t + [x];
      forall i, j | 0 <= i < j < |r| ensures cmp(r[i], r[j]) <= 0 {
        if j == |t| && i < |t| - 1 {
          Transitive(cmp, t[i], t[|t| - 1], x);
        }
      }
    } else {
      var t', last := t[..|t| - 1], t[|t| - 1];
      InsertSorted(cmp, t', x);
      Antisymmetric(cmp, last, x);
      InsertNotAfter(cmp, t', x, last);
    }
  }

  /** Every key sorts its input into comparator order. */
  lemma {:induction false} SortBySorted<T(!new)>(cmp: (T, T) -> int, s: seq<T>)
    requires Consistent(cmp)
    ensures Sorted(cmp, SortBy(cmp, s))
  {
    if s != [] {
      SortBySorted(cmp, s[..|s| - 1]);
      InsertSorted(cmp, SortBy(cmp, s[..|s| - 1]), s[|s| - 1]);
    }
  }

  lemma TiesSnoc<T>(cmp: (T, T) -> int, t: seq<T>, x: T, y: T)
    ensures Ties(cmp, t + [x], y) == Ties(cmp, t, y) + (if cmp(x, y) == 0 then [x] else [])
  {
    assert (t + [x])[..|t|] == t;
  }

  /** An element that sorts strictly after `x` cannot tie with the same entry as `x`. */
  lemma NotBothTie<T(!new)>(cmp: (T, T) -> int, last: T, x: T, y: T)
    requires Consistent(cmp)
    requires cmp(last, x) > 0
    ensures !(cmp(x, y) == 0 && cmp(last, y) == 0)
  {
    if cmp(x, y) == 0 && cmp(last, y) == 0 {
      Antisymmetric(cmp, x, y);
      TieTransitive(cmp, last, y, x);
    }
  }

  lemma {:induction false} InsertTies<T(!new)>(cmp: (T, T) -> int, t: seq<T>, x: T, y: T)
    requires Consistent(cmp)
    ensures Ties(cmp, Insert(cmp, t, x), y) == Ties(cmp, t, y) + (if cmp(x, y) == 0 then [x] else [])
  {
    if t == [] || cmp(t[|t| - 1], x) <= 0 {
      TiesSnoc(cmp, t, x, y);
    } else {
      var t', last := t[..|t| - 1], t[|t| - 1];
      var u := Insert(cmp, t', x);
      assert Insert(cmp, t, x) == u + [last];
      InsertTies(cmp, t', x, y);
      TiesSnoc(cmp, u, last, y);
      NotBothTie(cmp, last, x, y);
      var cx := if cmp(x, y) == 0 then [x] else [];
      var cl := if cmp(last, y) == 0 then [last] else [];
      assert cx + cl == cl + cx;
      assert Ties(cmp, u, y) + cl == Ties(cmp, t', y) + cx + cl;
    }
  }

  /** Stability: the entries that tie keep their relative order. */
  lemma {:induction false} SortByStable<T(!new)>(cmp: (T, T) -> int, s: seq<T>, y: T)
    requires Consistent(cmp)
    ensures Ties(cmp, SortBy(cmp, s), y) == Ties(cmp, s, y)
  {
    if s != [] {
      SortByStable(cmp, s[..|s| - 1], y);
      InsertTies(cmp, SortBy(cmp, s[..|s| - 1]), s[|s| - 1], y);
    }
  }

  /** A comparator that ties everything leaves the order as it is. */
  lemma {:induction false} SortByAllTies<T>(cmp: (T, T) -> int, s: seq<T>)
    requires forall a, b :: cmp(a, b) == 0
    ensures SortBy(cmp, s) == s
  {
    if s != [] {
      SortByAllTies(cmp, s[..|s| - 1]);
      assert s == s[..|s| - 1] + [s[|s| - 1]];
    }
  }

  lemma CompareSelf<T(!new)>(cmp: (T, T) -> int, e: T)
    requires Consistent(cmp)
    ensures cmp(e, e) == 0
  {
    Antisymmetric(cmp, e, e);
  }

  lemma {:induction false} TiesMembers<T>(cmp: (T, T) -> int, s: seq<T>, y: T)
    ensures forall e :: e in Ties(cmp, s, y) <==> e in s && cmp(e, y) == 0
  {
    if s != [] {
      TiesMembers(cmp, s[..|s| - 1], y);
      assert s == s[..|s| - 1] + [s[|s| - 1]];
    }
  }

  lemma DropCommonSuffix<T>(a: seq<T>, b: seq<T>, c: seq<T>)
    requires a + c == b + c
    ensures a == b
  {
    assert a == (a + c)[..|a|];
    assert b == (b + c)[..|b|];
  }

  /** The last element of a sorted sequence is no earlier than any of its elements. */
  lemma LastIsMaximal<T(!new)>(cmp: (T, T) -> int, r: seq<T>, e: T)
    requires Consistent(cmp)
    requires Sorted(cmp, r) && r != [] && e in r
    ensures cmp(e, r[|r| - 1]) <= 0
  {
    var m :| 0 <= m < |r| && r[m] == e;
    if m == |r| - 1 {
      CompareSelf(cmp, e);
    }
  }

  /** Sequences with the same ties have the same elements. */
  lemma SameTiesSameElements<T(!new)>(cmp: (T, T) -> int, r1: seq<T>, r2: seq<T>, e: T)
    requires Consistent(cmp)
    requires forall y :: Ties(cmp, r1, y) == Ties(cmp, r2, y)
    requires e in r2
    ensures e in r1
  {
    CompareSelf(cmp, e);
    TiesMembers(cmp, r2, e);
    TiesMembers(cmp, r1, e);
    assert Ties(cmp, r1, e) == Ties(cmp, r2, e);
  }

  /** The last elements of two sorted sequences holding each other's last element tie. */
  lemma LastsTie<T(!new)>(cmp: (T, T) -> int, r1: seq<T>, r2: seq<T>)
    requires Consistent(cmp)
    requires Sorted(cmp, r1) && Sorted(cmp, r2) && r1 != [] && r2 != []
    requires r2[|r2| - 1] in r1 && r1[|r1| - 1] in r2
    ensures cmp(r1[|r1| - 1], r2[|r2| - 1]) == 0
  {
    LastIsMaximal(cmp, r1, r2[|r2| - 1]);
    LastIsMaximal(cmp, r2, r1[|r1| - 1]);
    Antisymmetric(cmp, r1[|r1| - 1], r2[|r2| - 1]);
  }

  /** Sorted sequences with the same ties end with the same element. */
  lemma SameLast<T(!new)>(cmp: (T, T) -> int, r1: seq<T>, r2: seq<T>)
    requires Consistent(cmp)
    requires Sorted(cmp, r1) && Sorted(cmp, r2) && r1 != [] && r2 != []
    requires forall y :: Ties(cmp, r1, y) == Ties(cmp, r2, y)
    ensures r1[|r1| - 1] == r2[|r2| - 1]
  {
    var a, b := r1[|r1| - 1], r2[|r2| - 1];
    SameTiesSameElements(cmp, r1, r2, b);
    SameTiesSameElements(cmp, r2, r1, a);
    LastsTie(cmp, r1, r2);
    CompareSelf(cmp, a);
    Antisymmetric(cmp, a, b);
    var ta := Ties(cmp, r1[..|r1| - 1], a);
    var tb := Ties(cmp, r2[..|r2| - 1], a);
    assert Ties(cmp, r1, a) == ta + [a];
    assert Ties(cmp, r2, a) == tb + [b];
    assert Ties(cmp, r1, a) == Ties(cmp, r2, a);
    assert (ta + [a])[|ta|] == a;
    assert (tb + [b])[|tb|] == b;
  }

  /** Sequences with the same ties and the same last element have the same ties without it. */
  lemma SameTiesOfInit<T>(cmp: (T, T) -> int, r1: seq<T>, r2: seq<T>, i1: seq<T>, i2: seq<T>)
    requires r1 != [] && r2 != [] && r1[|r1| - 1] == r2[|r2| - 1]
    requires i1 == r1[..|r1| - 1] && i2 == r2[..|r2| - 1]
    requires forall y :: Ties(cmp, r1, y) == Ties(cmp, r2, y)
    ensures forall y :: Ties(cmp, i1, y) == Ties(cmp, i2, y)
  {
    forall y ensures Ties(cmp, i1, y) == Ties(cmp, i2, y) {
      var a := r1[|r1| - 1];
      var c := if cmp(a, y) == 0 then [a] else [];
      assert Ties(cmp, r1, y) == Ties(cmp, i1, y) + c;
      assert Ties(cmp, r2, y) == Ties(cmp, i2, y) + c;
      DropCommonSuffix(Ties(cmp, i1, y), Ties(cmp, i2, y), c);
    }
  }

  lemma SortedInit<T>(cmp: (T, T) -> int, r: seq<T>, i: seq<T>)
    requires Sorted(cmp, r) && r != [] && i == r[..|r| - 1]
    ensures Sorted(cmp, i)
  {
  }

  /** Two sorted sequences with the same ties, in the same order, are equal. */
  lemma {:induction false} SortedTiesUnique<T(!new)>(cmp: (T, T) -> int, r1: seq<T>, r2: seq<T>)
    requires Consistent(cmp)
    requires Sorted(cmp, r1) && Sorted(cmp, r2)
    requires forall y :: Ties(cmp, r1, y) == Ties(cmp, r2, y)
    ensures r1 == r2
    decreases |r1| + |r2|
  {
    if r1 != [] && r2 != [] {
      SameLast(cmp, r1, r2);
      var i1, i2 := r1[..|r1| - 1], r2[..|r2| - 1];
      SameTiesOfInit(cmp, r1, r2, i1, i2);
      SortedInit(cmp, r1, i1);
      SortedInit(cmp, r2, i2);
      SortedTiesUnique(cmp, i1, i2);
      assert r1 == i1 + [r1[|r1| - 1]] && r2 == i2 + [r2[|r2| - 1]];
    } else if r1 != [] {
      SameTiesSameElements(cmp, r2, r1, r1[0]);
    } else if r2 != [] {
      SameTiesSameElements(cmp, r1, r2, r2[0]);
    }
  }

  /**
   * `SortBy` is the result of any stable sort: a sorted permutation whose
   * ties keep their input order is unique.
   */
  lemma StableSortUnique<T(!new)>(cmp: (T, T) -> int, s: seq<T>, r: seq<T>)
    requires Consistent(cmp)
    requires Sorted(cmp, r)
    requires forall y :: Ties(cmp, r, y) == Ties(cmp, s, y)
    ensures r == SortBy(cmp, s)
  {
    SortBySorted(cmp, s);
    forall y ensures Ties(cmp, r, y) == Ties(cmp, SortBy(cmp, s), y) {
      SortByStable(cmp, s, y);
    }
    SortedTiesUnique(cmp, r, SortBy(cmp, s));
  }

  // ------------------------------------------------------ the in-place sort

  lemma InsertShift<T>(cmp: (T, T) -> int, t: seq<T>, j: nat, x: T)
    requires 0 < j <= |t| && cmp(t[j - 1], x) > 0
    ensures Insert(cmp, t[..j], x) + t[j..] == Insert(cmp, t[..j - 1], x) + t[j - 1..]
  {
    assert t[..j][..j - 1] == t[..j - 1];
    assert t[j - 1..] == [t[j - 1]] + t[j..];
  }

  lemma InsertStop<T>(cmp: (T, T) -> int, t: seq<T>, j: nat, x: T)
    requires j <= |t| && (j == 0 || cmp(t[j - 1], x) <= 0)
    ensures Insert(cmp, t[..j], x) + t[j..] == t[..j] + [x] + t[j..]
  {
  }

  /** Swapping `x` with the element before it moves it one place left. */
  lemma SwapLeft<T>(t: seq<T>, j: nat, x: T, rest: seq<T>)
    requires 0 < j <= |t|
    ensures (t[..j] + [x] + t[j..] + rest)[j - 1 := x][j := t[j - 1]] == t[..j - 1] + [x] + t[j - 1..] + rest
  {
    var u := (t[..j] + [x] + t[j..] + rest)[j - 1 := x][j := t[j - 1]];
    var v := t[..j - 1] + [x] + t[j - 1..] + rest;
    assert |u| == |v|;
    forall m | 0 <= m < |u| ensures u[m] == v[m] {
      if m < j - 1 {
      } else if m == j - 1 {
      } else if m == j {
      } else if m <= |t| {
        assert u[m] == t[m - 1];
      } else {
        assert u[m] == rest[m - |t| - 1];
      }
    }
  }

  /** Moves `a[i]` left past the entries before it that sort strictly after it. */
  method InsertInPlace<T>(a: array<T>, i: nat, cmp: (T, T) -> int)
    requires i < a.Length
    modifies a
    ensures a[..] == Insert(cmp, old(a[..i]), old(a[i])) + old(a[i + 1..])
  {
    ghost var t, rest := a[..i], a[i + 1..];
    var x := a[i];
    ghost var goal := Insert(cmp, t, x);
    var j := i;
    assert t[..j] == t && t[j..] == [];
    assert a[..] == t[..j] + [x] + t[j..] + rest;
    while j > 0 && cmp(a[j - 1], x) > 0
      invariant 0 <= j <= i
      invariant goal == Insert(cmp, t[..j], x) + t[j..]
      invariant a[..] == t[..j] + [x] + t[j..] + rest
    {
      InsertShift(cmp, t, j, x);
      SwapLeft(t, j, x, rest);
      a[j - 1], a[j] := x, a[j - 1];
      j := j - 1;
    }
    InsertStop(cmp, t, j, x);
  }

  /** Sorts `a` in place by `cmp`, inserting each entry into the sorted prefix before it. */
  method SortInPlace<T>(a: array<T>, cmp: (T, T) -> int)
    modifies a
    ensures a[..] == SortBy(cmp, old(a[..]))
  {
    ghost var s := a[..];
    var i := 0;
    while i < a.Length
      invariant 0 <= i <= a.Length
      invariant a[..i] == SortBy(cmp, s[..i])
      invariant a[i..] == s[i..]
    {
      assert a[i] == s[i];
      InsertInPlace(a, i, cmp);
      assert s[..i + 1][..i] == s[..i];
      assert a[..i + 1] == SortBy(cmp, s[..i + 1]);
      i := i + 1;
    }
    assert s[..a.Length] == s;
  }

}
