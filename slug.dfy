/**
 * `slugify` (js/script.js:21-29): lower-case, turn each run of white space
 * into '-', drop every character outside [A-Za-z0-9_-], turn each run of
 * '-' into one '-', and trim '-' from both ends. Each replace of the
 * source is one function below, applied in the same order.
 */
module Slug {
  import opened Text

  /** The characters a slug is made of. */
  predicate IsSlugChar(c: char) { IsLowerLetter(c) || IsDigit(c) || c == '_' || c == '-' }

  predicate NoDoubleHyphen(s: string) {
    forall i :: 0 <= i < |s| - 1 ==> !(s[i] == '-' && s[i + 1] == '-')
  }

  /** What `slugify` can produce: slug characters, no "--", no '-' at either end. */
  predicate IsSlug(s: string) {
    && (forall i :: 0 <= i < |s| ==> IsSlugChar(s[i]))
    && NoDoubleHyphen(s)
    && (|s| > 0 ==> s[0] != '-' && s[|s| - 1] != '-')
  }

  // ------------------------------------------------------------ the passes

  /** The two kinds of runs the source replaces: /\s+/ and /--+/. */
  datatype RunKind = Spaces | Hyphens

  predicate InRun(k: RunKind, c: char) {
    match k
    case Spaces => IsSpace(c)
    case Hyphens => c == '-'
  }

  /** Drops the leading run of `k` characters. */
  function SkipRun(s: string, k: RunKind): (r: string)
    ensures |r| <= |s| && r == s[|s| - |r|..]
    ensures r != [] ==> !InRun(k, r[0])
    ensures forall i :: 0 <= i < |s| - |r| ==> InRun(k, s[i])
  {
    if s != [] && InRun(k, s[0]) then SkipRun(s[1..], k) else s
  }

  /** Every maximal run of `k` characters becomes a single '-'. */
  function ReplaceRuns(s: string, k: RunKind): string
    decreases |s|
  {
    if s == [] then []
    else if InRun(k, s[0]) then "-" + ReplaceRuns(SkipRun(s[1..], k), k)
    else [s[0]] + ReplaceRuns(s[1..], k)
  }

  predicate Kept(c: char) { IsWordChar(c) || c == '-' }

  /** `.replace(/[^\w-]+/g, '')`. */
  function StripNonWord(s: string): string {
    if s == [] then [] else (if Kept(s[0]) then [s[0]] else []) + StripNonWord(s[1..])
  }

  /** `.replace(/^-+/, '')`. */
  function TrimStart(s: string): string {
    SkipRun(s, Hyphens)
  }

  /** `.replace(/-+$/, '')`. */
  function TrimEnd(s: string): (r: string)
    ensures |r| <= |s| && r == s[..|r|]
    ensures r != [] ==> r[|r| - 1] != '-'
    ensures forall i :: |r| <= i < |s| ==> s[i] == '-'
  {
    if s != [] && s[|s| - 1] == '-' then TrimEnd(s[..|s| - 1]) else s
  }

  /** `slugify(text)`; the empty text (falsy in the source) gives "". */
  function Slugify(text: string): (r: string)
    ensures IsSlug(r)
  {
    if text == [] then []
    else
      var lowered := Lower(text);
      var dashed := ReplaceRuns(lowered, Spaces);
      var stripped := StripNonWord(dashed);
      var collapsed := ReplaceRuns(stripped, Hyphens);
      var trimmed := TrimStart(collapsed);
      ReplaceRunsChars(lowered, Spaces);
      StripNonWordChars(dashed);
      ReplaceRunsChars(stripped, Hyphens);
      ReplaceHyphensNoDouble(stripped);
      TrimmedIsSlug(collapsed);
      TrimEnd(trimmed)
  }

  // ---------------------------------------------- shape of each pass's output

  lemma {:induction false} ReplaceRunsChars(s: string, k: RunKind)
    ensures forall i :: 0 <= i < |ReplaceRuns(s, k)| ==>
      ReplaceRuns(s, k)[i] == '-' || (ReplaceRuns(s, k)[i] in s && !InRun(k, ReplaceRuns(s, k)[i]))
    decreases |s|
  {
    if s == [] {
    } else if InRun(k, s[0]) {
      var t := SkipRun(s[1..], k);
      ReplaceRunsChars(t, k);
      forall c | c in t ensures c in s {
        assert t == s[1..][|s[1..]| - |t|..];
      }
    } else {
      ReplaceRunsChars(s[1..], k);
    }
  }

  lemma {:induction false} StripNonWordChars(s: string)
    ensures forall i :: 0 <= i < |StripNonWord(s)| ==> StripNonWord(s)[i] in s && Kept(StripNonWord(s)[i])
  {
    if s != [] {
      StripNonWordChars(s[1..]);
    }
  }

  lemma ReplaceRunsHead(s: string, k: RunKind)
    requires s != []
    ensures ReplaceRuns(s, k) != []
    ensures ReplaceRuns(s, k)[0] == if InRun(k, s[0]) then '-' else s[0]
  {
  }

  /** After the collapse no two hyphens are adjacent. */
  lemma {:induction false} ReplaceHyphensNoDouble(s: string)
    ensures NoDoubleHyphen(ReplaceRuns(s, Hyphens))
    decreases |s|
  {
    if s == [] {
    } else if s[0] == '-' {
      var t := SkipRun(s[1..], Hyphens);
      ReplaceHyphensNoDouble(t);
      if t != [] {
        ReplaceRunsHead(t, Hyphens);
      }
      var r := ReplaceRuns(t, Hyphens);
      assert ReplaceRuns(s, Hyphens) == "-" + r;
    } else {
      ReplaceHyphensNoDouble(s[1..]);
      assert ReplaceRuns(s, Hyphens) == [s[0]] + ReplaceRuns(s[1..], Hyphens);
    }
  }

  /** Trimming both ends of a hyphen-collapsed string of slug characters gives a slug. */
  lemma TrimmedIsSlug(s: string)
    requires forall i :: 0 <= i < |s| ==> IsSlugChar(s[i])
    requires NoDoubleHyphen(s)
    ensures IsSlug(TrimEnd(TrimStart(s)))
  {
    var t := TrimStart(s);
    var off := |s| - |t|;
    assert t == s[off..];
    var u := TrimEnd(t);
    assert u == t[..|u|];
    assert forall i :: 0 <= i < |u| ==> u[i] == s[off + i];
    assert forall i :: 0 <= i < |u| ==> IsSlugChar(u[i]);
    assert NoDoubleHyphen(u) by {
      forall i | 0 <= i < |u| - 1 ensures !(u[i] == '-' && u[i + 1] == '-') {
        assert u[i] == s[off + i] && u[i + 1] == s[off + i + 1];
      }
    }
    if u != [] {
      assert u[0] == t[0];
    }
  }

  // ------------------------------------------------------------- idempotence

  lemma {:induction false} ReplaceRunsNoRun(s: string, k: RunKind)
    requires forall i :: 0 <= i < |s| ==> !InRun(k, s[i])
    ensures ReplaceRuns(s, k) == s
  {
    if s != [] {
      ReplaceRunsNoRun(s[1..], k);
    }
  }

  lemma {:induction false} ReplaceHyphensSingle(s: string)
    requires NoDoubleHyphen(s)
    ensures ReplaceRuns(s, Hyphens) == s
  {
    if s != [] {
      ReplaceHyphensSingle(s[1..]);
      if s[0] == '-' {
        assert SkipRun(s[1..], Hyphens) == s[1..];
      }
    }
  }

  lemma {:induction false} StripNonWordKept(s: string)
    requires forall i :: 0 <= i < |s| ==> Kept(s[i])
    ensures StripNonWord(s) == s
  {
    if s != [] {
      StripNonWordKept(s[1..]);
    }
  }

  /** A slug is a fixed point of every pass, hence of `Slugify`. */
  lemma SlugFixpoint(s: string)
    requires IsSlug(s)
    ensures Slugify(s) == s
  {
    if s != [] {
      assert Lower(s) == s;
      ReplaceRunsNoRun(s, Spaces);
      StripNonWordKept(s);
      ReplaceHyphensSingle(s);
    }
  }

  /** slugify(slugify(x)) == slugify(x). */
  lemma SlugifyIdempotent(text: string)
    ensures Slugify(Slugify(text)) == Slugify(text)
  {
    SlugFixpoint(Slugify(text));
  }

  // ------------------------------------------------- which characters survive

  /** The word characters of `s`, in order. */
  function Words(s: string): string {
    if s == [] then [] else (if IsWordChar(s[0]) then [s[0]] else []) + Words(s[1..])
  }

  lemma {:induction false} WordsAppend(a: string, b: string)
    ensures Words(a + b) == Words(a) + Words(b)
  {
    if a == [] {
      assert a + b == b;
    } else {
      var head := if IsWordChar(a[0]) then [a[0]] else [];
      assert (a + b)[0] == a[0];
      assert (a + b)[1..] == a[1..] + b;
      WordsAppend(a[1..], b);
      calc {
        Words(a + b);
        head + Words(a[1..] + b);
        head + (Words(a[1..]) + Words(b));
        (head + Words(a[1..])) + Words(b);
        Words(a) + Words(b);
      }
    }
  }

  lemma {:induction false} WordsEmptyIff(s: string)
    ensures Words(s) == [] <==> forall i :: 0 <= i < |s| ==> !IsWordChar(s[i])
  {
    if s != [] {
      WordsEmptyIff(s[1..]);
      assert forall i :: 1 <= i < |s| ==> s[i] == s[1..][i - 1];
    }
  }

  lemma RunCharNotWord(k: RunKind, c: char)
    requires InRun(k, c)
    ensures !IsWordChar(c)
  {
  }

  lemma {:induction false} WordsSkipRun(s: string, k: RunKind)
    ensures Words(SkipRun(s, k)) == Words(s)
  {
    if s != [] && InRun(k, s[0]) {
      RunCharNotWord(k, s[0]);
      WordsSkipRun(s[1..], k);
      assert Words(s) == Words(s[1..]);
    }
  }

  lemma {:induction false} WordsReplaceRuns(s: string, k: RunKind)
    ensures Words(ReplaceRuns(s, k)) == Words(s)
    decreases |s|
  {
    if s == [] {
    } else if InRun(k, s[0]) {
      var t := SkipRun(s[1..], k);
      RunCharNotWord(k, s[0]);
      WordsReplaceRuns(t, k);
      WordsSkipRun(s[1..], k);
      WordsAppend("-", ReplaceRuns(t, k));
      assert Words(s) == Words(s[1..]);
    } else {
      WordsReplaceRuns(s[1..], k);
      WordsAppend([s[0]], ReplaceRuns(s[1..], k));
    }
  }

  lemma {:induction false} WordsStripNonWord(s: string)
    ensures Words(StripNonWord(s)) == Words(s)
  {
    if s != [] {
      WordsStripNonWord(s[1..]);
      WordsAppend(if Kept(s[0]) then [s[0]] else [], StripNonWord(s[1..]));
    }
  }

  lemma {:induction false} WordsTrimEnd(s: string)
    ensures Words(TrimEnd(s)) == Words(s)
    decreases |s|
  {
    if s != [] && s[|s| - 1] == '-' {
      WordsTrimEnd(s[..|s| - 1]);
      WordsAppend(s[..|s| - 1], [s[|s| - 1]]);
      assert s == s[..|s| - 1] + [s[|s| - 1]];
    }
  }

  /** The slug keeps exactly the word characters of the lower-cased text, in order. */
  lemma SlugifyWords(text: string)
    ensures Words(Slugify(text)) == Words(Lower(text))
  {
    if text != [] {
      var lowered := Lower(text);
      var dashed := ReplaceRuns(lowered, Spaces);
      var stripped := StripNonWord(dashed);
      var collapsed := ReplaceRuns(stripped, Hyphens);
      WordsReplaceRuns(lowered, Spaces);
      WordsStripNonWord(dashed);
      WordsReplaceRuns(stripped, Hyphens);
      WordsSkipRun(collapsed, Hyphens);
      WordsTrimEnd(TrimStart(collapsed));
    }
  }

  /** `slugify` yields "" exactly when the text has no [A-Za-z0-9_] character ("", "!!!", "   "). */
  lemma SlugifyEmptyIff(text: string)
    ensures Slugify(text) == [] <==> forall i :: 0 <= i < |text| ==> !IsWordChar(text[i])
  {
    var r := Slugify(text);
    SlugifyWords(text);
    WordsEmptyIff(r);
    WordsEmptyIff(Lower(text));
    forall i | 0 <= i < |text| ensures IsWordChar(Lower(text)[i]) <==> IsWordChar(text[i]) {
      LowerCharWord(text[i]);
    }
    if r != [] {
      assert IsWordChar(r[0]);
    }
  }

  /** A non-empty slug, '-', then digits is again a slug. */
  lemma SlugHyphenDigits(b: string, d: string)
    requires IsSlug(b) && b != [] && d != [] && AllDigits(d)
    ensures IsSlug(b + "-" + d)
  {
    var id := b + "-" + d;
    assert forall i :: 0 <= i < |b| ==> id[i] == b[i];
    assert id[|b|] == '-';
    assert forall i :: |b| < i < |id| ==> id[i] == d[i - |b| - 1];
    assert forall i :: 0 <= i < |id| ==> IsSlugChar(id[i]) by {
      forall i | 0 <= i < |id| ensures IsSlugChar(id[i]) {
        if i > |b| {
          assert IsDigit(d[i - |b| - 1]);
        }
      }
    }
    assert NoDoubleHyphen(id) by {
      forall i | 0 <= i < |id| - 1 ensures !(id[i] == '-' && id[i + 1] == '-') {
        if i >= |b| {
          assert IsDigit(d[i - |b|]);
        }
      }
    }
    assert IsDigit(d[|d| - 1]);
  }
}
