/**
 * getSteamAppId (js/script.js:111-115): the digits captured by the first
 * match of /\/app\/(\d+)\// in the store link, or null.
 */
module SteamLink {
  import opened Wrappers
  import opened Text

  const AppSegment := "/app/"

  /** "/app/" + digits + "/" occurs in `s` at position `p`, with non-empty all-digit `digits`. */
  ghost predicate PatternAt(s: string, p: int, digits: string) {
    && digits != []
    && AllDigits(digits)
    && 0 <= p
    && p + |digits| + 6 <= |s|
    && s[p..p + |digits| + 6] == AppSegment + digits + "/"
  }

  ghost predicate MatchesAt(s: string, p: int) {
    exists digits :: PatternAt(s, p, digits)
  }

  /** The length of the run of digits starting at `i`. */
  function DigitRun(s: string, i: nat): (n: nat)
    requires i <= |s|
    ensures i + n <= |s|
    ensures forall j :: i <= j < i + n ==> IsDigit(s[j])
    ensures i + n == |s| || !IsDigit(s[i + n])
    decreases |s| - i
  {
    if i < |s| && IsDigit(s[i]) then 1 + DigitRun(s, i + 1) else 0
  }

  lemma DigitRunExact(s: string, i: nat, n: nat)
    requires i + n < |s|
    requires forall j :: i <= j < i + n ==> IsDigit(s[j])
    requires !IsDigit(s[i + n])
    ensures DigitRun(s, i) == n
    decreases n
  {
    if n > 0 {
      DigitRunExact(s, i + 1, n - 1);
    }
  }

  /** The regular expression tried at position `p` alone. */
  function MatchAt(s: string, p: nat): (r: Option<string>)
    requires p <= |s|
    ensures r.Some? ==> PatternAt(s, p, r.value)
    ensures r.None? ==> !MatchesAt(s, p)
  {
    if p + 5 <= |s| && s[p..p + 5] == AppSegment then
      var n := DigitRun(s, p + 5);
      if n > 0 && p + 5 + n < |s| && s[p + 5 + n] == '/' then
        var digits := s[p + 5..p + 5 + n];
        assert s[p..p + n + 6] == s[p..p + 5] + digits + [s[p + 5 + n]];
        Some(digits)
      else
        MatchesAtShape(s, p);
        None
    else
      MatchesAtShape(s, p);
      None
  }

  /** A match at `p` is the prefix "/app/", the whole run of digits after it, and a '/'. */
  lemma PatternShape(s: string, p: int, d: string)
    requires PatternAt(s, p, d)
    ensures p + 5 <= |s| && s[p..p + 5] == AppSegment
    ensures DigitRun(s, p + 5) == |d|
    ensures p + 5 + |d| < |s| && s[p + 5 + |d|] == '/'
    ensures s[p + 5..p + 5 + |d|] == d
  {
    var m := |d|;
    var w := s[p..p + m + 6];
    assert s[p..p + 5] == w[..5];
    assert forall j :: p + 5 <= j < p + 5 + m ==> s[j] == w[j - p] == d[j - p - 5];
    assert s[p + 5 + m] == w[m + 5] == '/';
    DigitRunExact(s, p + 5, m);
    assert s[p + 5..p + 5 + m] == w[5..m + 5];
  }

  lemma MatchesAtShape(s: string, p: nat)
    requires p <= |s|
    ensures MatchesAt(s, p) ==>
      && p + 5 <= |s| && s[p..p + 5] == AppSegment
      && var n := DigitRun(s, p + 5); n > 0 && p + 5 + n < |s| && s[p + 5 + n] == '/'
  {
    if MatchesAt(s, p) {
      var d :| PatternAt(s, p, d);
      PatternShape(s, p, d);
    }
  }

  /** The leftmost match at or after position `p`. */
  function Search(s: string, p: nat): (r: Option<string>)
    requires p <= |s|
    ensures r.Some? ==> exists q :: p <= q <= |s| && PatternAt(s, q, r.value) &&
                          forall q' :: p <= q' < q ==> !MatchesAt(s, q')
    ensures r.None? ==> forall q :: p <= q <= |s| ==> !MatchesAt(s, q)
    decreases |s| - p
  {
    match MatchAt(s, p)
    case Some(digits) => Some(digits)
    case None => if p == |s| then None else Search(s, p + 1)
  }

  /** getSteamAppId(steamLink). */
  function SteamAppId(link: Option<string>): (r: Option<string>)
    ensures link.None? || link.value == [] ==> r.None?
    ensures r.Some? ==> r.value != [] && AllDigits(r.value)
  {
    if link.None? || link.value == [] then None else Search(link.value, 0)
  }

  lemma OutsideNoMatch(s: string, q: int)
    requires q < 0 || q > |s|
    ensures !MatchesAt(s, q)
  {
  }

  /** Null exactly when no position of the link matches; otherwise the digits of the leftmost match. */
  lemma SteamAppIdSpec(s: string)
    requires s != []
    ensures SteamAppId(Some(s)).None? <==> forall q :: !MatchesAt(s, q)
    ensures SteamAppId(Some(s)).Some? ==>
      exists p :: PatternAt(s, p, SteamAppId(Some(s)).value) && forall q :: q < p ==> !MatchesAt(s, q)
  {
    var r := SteamAppId(Some(s));
    if r.None? {
      forall q ensures !MatchesAt(s, q) {
        if q < 0 || q > |s| {
          OutsideNoMatch(s, q);
        }
      }
    } else {
      var p :| 0 <= p <= |s| && PatternAt(s, p, r.value) && forall q' :: 0 <= q' < p ==> !MatchesAt(s, q');
      assert MatchesAt(s, p);
      forall q | q < p ensures !MatchesAt(s, q) {
        if q < 0 {
          OutsideNoMatch(s, q);
        }
      }
    }
  }

  /** At a given position at most one digit string matches: the whole run of digits there. */
  lemma PatternDigitsUnique(s: string, p: int, d1: string, d2: string)
    requires PatternAt(s, p, d1) && PatternAt(s, p, d2)
    ensures d1 == d2
  {
    PatternShape(s, p, d1);
    PatternShape(s, p, d2);
  }

}
