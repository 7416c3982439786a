/**
 * parsePrice (js/script.js:156-161) and the numeric comparison the two
 * price sorts use (js/script.js:165, 168). Amounts are exact rationals:
 * the model does not round to IEEE doubles.
 */
module Price {
  import opened Wrappers
  import opened Text

  /** A parsed price: a finite amount, or the Infinity of a non-string or unparseable price. */
  datatype PriceKey = Finite(amount: real) | Infinite

  predicate IsPriceChar(c: char) { IsDigit(c) || c == '$' || c == '.' }

  /** `.replace(/[^0-9$.]/g, '')` */
  function KeepPriceChars(s: string): (r: string)
    ensures |r| <= |s|
    ensures forall i :: 0 <= i < |r| ==> IsPriceChar(r[i])
  {
    if s == [] then [] else (if IsPriceChar(s[0]) then [s[0]] else []) + KeepPriceChars(s[1..])
  }

  /** `.replace('$', '')`: a string pattern replaces its first occurrence only. */
  function RemoveFirst(s: string, c: char): string {
    if s == [] then []
    else if s[0] == c then s[1..]
    else [s[0]] + RemoveFirst(s[1..], c)
  }

  function CleanPrice(s: string): string {
    RemoveFirst(KeepPriceChars(s), '$')
  }

  function Pow10(n: nat): (r: nat)
    ensures r > 0
  {
    if n == 0 then 1 else 10 * Pow10(n - 1)
  }

  /** The longest prefix of `s` made of digits. */
  function LeadingDigits(s: string): (r: string)
    ensures |r| <= |s| && r == s[..|r|] && AllDigits(r)
    ensures |r| == |s| || !IsDigit(s[|r|])
  {
    if s != [] && IsDigit(s[0]) then [s[0]] + LeadingDigits(s[1..]) else []
  }

  /** The digits after a leading '.', if `rest` starts with one. */
  function FractionDigits(rest: string): (r: string)
    ensures AllDigits(r)
    ensures rest != [] && rest[0] == '.' ==>
      1 + |r| <= |rest| && r == rest[1..1 + |r|] && (1 + |r| == |rest| || !IsDigit(rest[1 + |r|]))
    ensures !(rest != [] && rest[0] == '.') ==> r == []
  {
    if rest != [] && rest[0] == '.' then LeadingDigits(rest[1..]) else []
  }

  /** The exact value of the decimal numeral whole.frac. */
  function DecimalValue(whole: string, frac: string): real
    requires AllDigits(whole) && AllDigits(frac)
  {
    DigitsValue(whole) as real + DigitsValue(frac) as real / Pow10(|frac|) as real
  }

  /**
   * parseFloat on a string of digits, '$' and '.': the longest prefix of the
   * form digits ["." digits] with at least one digit; None is NaN.
   */
  function ParseFloatPrefix(c: string): Option<real> {
    var whole := LeadingDigits(c);
    var frac := FractionDigits(c[|whole|..]);
    if whole == [] && frac == [] then None else Some(DecimalValue(whole, frac))
  }

  /** parsePrice(priceStr); `None` stands for a price that is not a string. */
  function ParsePrice(price: Option<string>): (k: PriceKey)
    ensures price.None? ==> k == Infinite
    ensures price.Some? && Lower(price.value) == "free" ==> k == Finite(0.0)
    ensures k.Finite? ==> k.amount >= 0.0
  {
    match price
    case None => Infinite
    case Some(s) =>
      if Lower(s) == "free" then Finite(0.0)
      else match ParseFloatPrefix(CleanPrice(s))
        case Some(v) => Finite(v)
        case None => Infinite
  }

  /** The sign of `parsePrice(a) - parsePrice(b)`; Infinity - Infinity is NaN, which sorts as 0. */
  function PriceCompare(a: PriceKey, b: PriceKey): int {
    match (a, b)
    case (Finite(x), Finite(y)) => if x < y then -1 else if x > y then 1 else 0
    case (Finite(_), Infinite) => -1
    case (Infinite, Finite(_)) => 1
    case (Infinite, Infinite) => 0
  }

  // ------------------------------------------------------------------ lemmas

  /** The cleaned text starts a number: a digit, or '.' then a digit. */
  predicate StartsNumber(c: string) {
    c != [] && (IsDigit(c[0]) || (c[0] == '.' && |c| > 1 && IsDigit(c[1])))
  }

  /** A string price is finite exactly when it says "free" in any case or its cleaned text starts a number. */
  lemma ParsePriceFiniteIff(s: string)
    ensures ParsePrice(Some(s)).Finite? <==> Lower(s) == "free" || StartsNumber(CleanPrice(s))
  {
    var c := CleanPrice(s);
    var whole := LeadingDigits(c);
    if c != [] && IsDigit(c[0]) {
      assert whole != [];
    } else if whole == [] && |c| > 1 && c[0] == '.' {
      assert c[1..][0] == c[1];
    }
  }

  lemma {:induction false} KeepPriceCharsAll(s: string)
    requires forall i :: 0 <= i < |s| ==> IsPriceChar(s[i])
    ensures KeepPriceChars(s) == s
  {
    if s != [] {
      KeepPriceCharsAll(s[1..]);
      assert [s[0]] + s[1..] == s;
    }
  }

  /**
   * The first replace keeps exactly the price characters of its input, in
   * order: it works character by character and distributes over concatenation.
   */
  lemma {:induction false} KeepPriceCharsAppend(a: string, b: string)
    ensures KeepPriceChars(a + b) == KeepPriceChars(a) + KeepPriceChars(b)
    ensures |a| == 1 ==> KeepPriceChars(a) == if IsPriceChar(a[0]) then a else []
  {
    if a == [] {
      assert a + b == b;
    } else {
      assert (a + b)[1..] == a[1..] + b;
      KeepPriceCharsAppend(a[1..], b);
      if |a| == 1 {
        assert a[1..] == [];
      }
    }
  }

  lemma {:induction false} KeepPriceCharsNone(s: string)
    requires forall i :: 0 <= i < |s| ==> !IsPriceChar(s[i])
    ensures KeepPriceChars(s) == []
  {
    if s != [] {
      KeepPriceCharsNone(s[1..]);
    }
  }

  /**
   * Text without price characters around a price (a currency code, a word)
   * does not change what the price parses to.
   */
  lemma NoiseIgnored(noise: string, s: string)
    requires forall i :: 0 <= i < |noise| ==> !IsPriceChar(noise[i])
    requires Lower(noise + s) != "free" && Lower(s + noise) != "free" && Lower(s) != "free"
    ensures ParsePrice(Some(noise + s)) == ParsePrice(Some(s))
    ensures ParsePrice(Some(s + noise)) == ParsePrice(Some(s))
  {
    KeepPriceCharsNone(noise);
    KeepPriceCharsAppend(noise, s);
    KeepPriceCharsAppend(s, noise);
    assert KeepPriceChars(noise + s) == KeepPriceChars(s);
    assert KeepPriceChars(s + noise) == KeepPriceChars(s) + [] == KeepPriceChars(s);
    assert CleanPrice(noise + s) == CleanPrice(s) == CleanPrice(s + noise);
  }

  lemma {:induction false} LeadingDigitsOf(d: string, rest: string)
    requires AllDigits(d)
    requires rest == [] || !IsDigit(rest[0])
    ensures LeadingDigits(d + rest) == d
  {
    if d != [] {
      assert (d + rest)[1..] == d[1..] + rest;
      LeadingDigitsOf(d[1..], rest);
      assert [d[0]] + d[1..] == d;
    } else {
      assert d + rest == rest;
    }
  }

  lemma CleanDollar(body: string)
    requires forall i :: 0 <= i < |body| ==> IsDigit(body[i]) || body[i] == '.'
    ensures CleanPrice("$" + body) == body
  {
    KeepPriceCharsAll("$" + body);
    assert ("$" + body)[1..] == body;
  }

  lemma ParseDecimalText(d: string, cc: string)
    requires d != [] && AllDigits(d) && AllDigits(cc)
    ensures ParseFloatPrefix(d + "." + cc) == Some(DecimalValue(d, cc))
  {
    var c := d + "." + cc;
    assert c == d + ("." + cc);
    assert ("." + cc)[0] == '.';
    LeadingDigitsOf(d, "." + cc);
    var rest := c[|d|..];
    assert rest == "." + cc;
    assert rest[1..] == cc + [];
    LeadingDigitsOf(cc, []);
    assert FractionDigits(rest) == cc;
  }

  lemma NotFree(s: string)
    requires s != [] && s[0] == '$'
    ensures Lower(s) != "free"
  {
    assert Lower(s)[0] == '$';
  }

  lemma TwoDigits(cents: nat)
    requires cents < 100
    ensures AllDigits([DigitChar(cents / 10), DigitChar(cents % 10)])
    ensures DigitsValue([DigitChar(cents / 10), DigitChar(cents % 10)]) == cents
  {
    var cc := [DigitChar(cents / 10), DigitChar(cents % 10)];
    var c0 := [DigitChar(cents / 10)];
    assert cc[..1] == c0 && c0[..0] == [];
    assert DigitsValue(c0) == cents / 10;
  }

  /** A price written "$<dollars>.<two-digit cents>" parses to that exact amount. */
  lemma DollarsAndCents(dollars: nat, cents: nat)
    requires cents < 100
    ensures ParsePrice(Some("$" + Decimal(dollars) + "." + [DigitChar(cents / 10), DigitChar(cents % 10)]))
         == Finite(dollars as real + cents as real / 100.0)
  {
    var d := Decimal(dollars);
    var cc := [DigitChar(cents / 10), DigitChar(cents % 10)];
    TwoDigits(cents);
    var body := d + "." + cc;
    assert "$" + d + "." + cc == "$" + body;
    NotFree("$" + body);
    CleanDollar(body);
    ParseDecimalText(d, cc);
    DecimalRoundTrip(dollars);
    assert Pow10(2) == 100;
  }

  /** A whole-dollar price "$<dollars>" parses to that amount. */
  lemma WholeDollars(dollars: nat)
    ensures ParsePrice(Some("$" + Decimal(dollars))) == Finite(dollars as real)
  {
    var d := Decimal(dollars);
    NotFree("$" + d);
    CleanDollar(d);
    LeadingDigitsOf(d, []);
    assert d + [] == d;
    assert d[|d|..] == [];
    DecimalRoundTrip(dollars);
  }

  /** "$10" is 10. */
  lemma TenDollars()
    ensures ParsePrice(Some("$10")) == Finite(10.0)
  {
    assert Decimal(1) == "1";
    assert Decimal(10) == "1" + [DigitChar(0)] == "10";
    WholeDollars(10);
    assert "$" + Decimal(10) == "$10";
  }

  /** "$19.99" is 19.99. */
  lemma NineteenNinetyNine()
    ensures ParsePrice(Some("$19.99")) == Finite(19.99)
  {
    assert Decimal(1) == "1";
    assert Decimal(19) == "1" + [DigitChar(9)] == "19";
    DollarsAndCents(19, 99);
    assert [DigitChar(99 / 10), DigitChar(99 % 10)] == "99";
    assert "$" + Decimal(19) + "." + "99" == "$19.99";
  }

  /** "Free" is 0 and "N/A" is Infinity. */
  lemma WordExamples()
    ensures ParsePrice(Some("Free")) == Finite(0.0)
    ensures ParsePrice(Some("N/A")) == Infinite
  {
    assert Lower("Free") == "free";
    assert Lower("N/A")[0] == 'n';
    assert KeepPriceChars("N/A") == [];
  }
}
