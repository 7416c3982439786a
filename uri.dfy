/**
 * encodeURIComponent and decodeURIComponent, as the click handler
 * (js/script.js:224) and the router (js/script.js:248) use them: the
 * Encode and Decode abstract operations of ECMA-262 (section 19.2.6) with
 * the empty reserved set, over UTF-8. A Dafny `char` is a Unicode scalar
 * value, so the lone surrogates that make encodeURIComponent throw cannot
 * occur here.
 */
module UriComponent {
  import opened Wrappers
  import opened Text

  type Byte = b: int | 0 <= b < 256

  /** The characters encodeURIComponent leaves as they are. */
  predicate IsUnreserved(c: char) {
    IsLowerLetter(c) || IsUpper(c) || IsDigit(c) || c in "-_.!~*'()"
  }

  function HexDigit(d: int): char
    requires 0 <= d < 16
  {
    if d < 10 then ('0' as int + d) as char else ('A' as int + d - 10) as char
  }

  /** The value of a hexadecimal digit of either case. */
  function HexValue(c: char): (r: Option<int>)
    ensures r.Some? ==> 0 <= r.value < 16
  {
    if '0' <= c <= '9' then Some(c as int - '0' as int)
    else if 'A' <= c <= 'F' then Some(c as int - 'A' as int + 10)
    else if 'a' <= c <= 'f' then Some(c as int - 'a' as int + 10)
    else None
  }

  /** "%XY" with upper-case hexadecimal digits. */
  function Escape(b: Byte): string {
    ['%', HexDigit(b / 16), HexDigit(b % 16)]
  }

  function EscapeAll(bs: seq<Byte>): (r: string)
    ensures |r| == 3 * |bs|
  {
    if bs == [] then [] else Escape(bs[0]) + EscapeAll(bs[1..])
  }

  /** The UTF-8 encoding of a Unicode scalar value (RFC 3629). */
  function Utf8(c: char): seq<Byte> {
    var n := c as int;
    if n < 0x80 then [n]
    else if n < 0x800 then [0xC0 + n / 64, 0x80 + n % 64]
    else if n < 0x10000 then [0xE0 + n / 4096, 0x80 + n / 64 % 64, 0x80 + n % 64]
    else [0xF0 + n / 262144, 0x80 + n / 4096 % 64, 0x80 + n / 64 % 64, 0x80 + n % 64]
  }

  function EncodeChar(c: char): string {
    if IsUnreserved(c) then [c] else EscapeAll(Utf8(c))
  }

  /** encodeURIComponent. */
  function Encode(s: string): string {
    if s == [] then [] else EncodeChar(s[0]) + Encode(s[1..])
  }

  // ---------------------------------------------------------------- decoding

  /** The byte of an escape "%XY" at the start of `s`, if there is one. */
  function ReadEscape(s: string): (r: Option<Byte>)
    ensures r.Some? ==> |s| >= 3 && s[0] == '%'
  {
    if |s| >= 3 && s[0] == '%' && HexValue(s[1]).Some? && HexValue(s[2]).Some?
    then Some(HexValue(s[1]).value * 16 + HexValue(s[2]).value)
    else None
  }

  /** The number of leading one bits of a byte; 5 stands for five or more. */
  function LeadingOnes(b: Byte): nat {
    if b < 0x80 then 0
    else if b < 0xC0 then 1
    else if b < 0xE0 then 2
    else if b < 0xF0 then 3
    else if b < 0xF8 then 4
    else 5
  }

  /** 10xxxxxx */
  predicate IsContinuation(b: Byte) { 0x80 <= b < 0xC0 }

  /** Reads `count` escapes at the start of `s`, each of a continuation byte. */
  function ReadContinuations(s: string, count: nat): (r: Option<seq<Byte>>)
    ensures r.Some? ==> |r.value| == count && 3 * count <= |s|
    ensures r.Some? ==> forall i :: 0 <= i < count ==> IsContinuation(r.value[i])
    decreases count
  {
    if count == 0 then Some([])
    else match ReadEscape(s)
      case None => None
      case Some(b) =>
        if !IsContinuation(b) then None
        else match ReadContinuations(s[3..], count - 1)
          case None => None
          case Some(rest) => Some([b] + rest)
  }

  /** The payload bits of a lead byte that starts a sequence of `n` bytes. */
  function LeadBits(b: Byte, n: nat): nat
    requires 2 <= n <= 4 && LeadingOnes(b) == n
  {
    if n == 2 then b - 0xC0 else if n == 3 then b - 0xE0 else b - 0xF0
  }

  /** Appends six payload bits per continuation byte. */
  function Accumulate(acc: nat, cont: seq<Byte>): nat
    decreases |cont|
  {
    if cont == [] then acc else Accumulate(acc * 64 + cont[0] % 64, cont[1..])
  }

  /** The smallest code point whose shortest encoding takes `n` bytes. */
  function MinCodePoint(n: nat): nat {
    if n == 2 then 0x80 else if n == 3 then 0x800 else 0x10000
  }

  predicate IsScalar(cp: int) {
    0 <= cp < 0xD800 || 0xE000 <= cp <= 0x10FFFF
  }

  function Cons(c: char, rest: Option<string>): Option<string> {
    match rest
    case None => None
    case Some(t) => Some([c] + t)
  }

  /**
   * decodeURIComponent. None is the URIError it throws: a '%' not followed
   * by two hexadecimal digits, a lead byte of the form 10xxxxxx or 11111xxx,
   * a missing or malformed continuation escape, an overlong encoding, a
   * surrogate or a code point above U+10FFFF.
   */
  function Decode(s: string): Option<string>
    decreases |s|
  {
    if s == [] then Some([])
    else if s[0] != '%' then Cons(s[0], Decode(s[1..]))
    else match ReadEscape(s)
      case None => None
      case Some(b) =>
        if b < 0x80 then Cons(b as char, Decode(s[3..]))
        else
          var n := LeadingOnes(b);
          if n == 1 || n > 4 then None
          else match ReadContinuations(s[3..], n - 1)
            case None => None
            case Some(cont) =>
              var cp := Accumulate(LeadBits(b, n), cont);
              if cp >= MinCodePoint(n) && IsScalar(cp) then Cons(cp as char, Decode(s[3 * n..]))
              else None
  }

  // -------------------------------------------------------------- round trip

  lemma HexRoundTrip(d: int)
    requires 0 <= d < 16
    ensures HexValue(HexDigit(d)) == Some(d)
  {
  }

  lemma ReadEscapeOf(b: Byte, rest: string)
    ensures ReadEscape(Escape(b) + rest) == Some(b)
  {
    HexRoundTrip(b / 16);
    HexRoundTrip(b % 16);
    var s := Escape(b) + rest;
    assert s[0] == '%' && s[1] == HexDigit(b / 16) && s[2] == HexDigit(b % 16);
  }

  lemma {:induction false} ReadContinuationsOf(bs: seq<Byte>, rest: string)
    requires forall i :: 0 <= i < |bs| ==> IsContinuation(bs[i])
    ensures ReadContinuations(EscapeAll(bs) + rest, |bs|) == Some(bs)
  {
    if bs != [] {
      var s := EscapeAll(bs) + rest;
      assert s == Escape(bs[0]) + (EscapeAll(bs[1..]) + rest);
      ReadEscapeOf(bs[0], EscapeAll(bs[1..]) + rest);
      assert s[3..] == EscapeAll(bs[1..]) + rest;
      ReadContinuationsOf(bs[1..], rest);
      assert [bs[0]] + bs[1..] == bs;
    }
  }

  lemma Split64(x: nat)
    ensures x / 4096 == x / 64 / 64
    ensures x / 262144 == x / 4096 / 64
  {
  }

  lemma TwoBytes(n: int)
    requires 0x80 <= n < 0x800
    ensures Accumulate(n / 64, [0x80 + n % 64]) == n
  {
  }

  lemma FourBytes(n: int)
    requires 0x10000 <= n <= 0x10FFFF
    ensures Accumulate(n / 262144, [0x80 + n / 4096 % 64, 0x80 + n / 64 % 64, 0x80 + n % 64]) == n
  {
    Split64(n);
    Split64(n / 64);
    var tail: seq<Byte> := [0x80 + n / 64 % 64, 0x80 + n % 64];
    assert [0x80 + n / 4096 % 64, 0x80 + n / 64 % 64, 0x80 + n % 64][1..] == tail;
    assert Accumulate(n / 262144, [0x80 + n / 4096 % 64, 0x80 + n / 64 % 64, 0x80 + n % 64])
        == Accumulate(n / 4096, tail);
    ThreeBytesTail(n);
  }

  lemma ThreeBytesTail(n: int)
    requires 0 <= n
    ensures Accumulate(n / 4096, [0x80 + n / 64 % 64, 0x80 + n % 64]) == n
  {
    Split64(n);
    var tail: seq<Byte> := [0x80 + n % 64];
    assert [0x80 + n / 64 % 64, 0x80 + n % 64][1..] == tail;
    assert Accumulate(n / 4096, [0x80 + n / 64 % 64, 0x80 + n % 64]) == Accumulate(n / 64, tail);
  }

  /** The bytes of a multi-byte encoding read back as the same code point. */
  lemma Utf8Decodes(c: char)
    requires c as int >= 0x80
    ensures 2 <= |Utf8(c)| <= 4
    ensures LeadingOnes(Utf8(c)[0]) == |Utf8(c)|
    ensures forall i :: 1 <= i < |Utf8(c)| ==> IsContinuation(Utf8(c)[i])
    ensures Accumulate(LeadBits(Utf8(c)[0], |Utf8(c)|), Utf8(c)[1..]) == c as int
    ensures c as int >= MinCodePoint(|Utf8(c)|) && IsScalar(c as int)
  {
    var n := c as int;
    var u := Utf8(c);
    if n < 0x800 {
      assert u[1..] == [0x80 + n % 64];
      TwoBytes(n);
    } else if n < 0x10000 {
      assert u[1..] == [0x80 + n / 64 % 64, 0x80 + n % 64];
      ThreeBytesTail(n);
    } else {
      assert u[1..] == [0x80 + n / 4096 % 64, 0x80 + n / 64 % 64, 0x80 + n % 64];
      FourBytes(n);
    }
  }

  lemma DecodeEncodedChar(c: char, rest: string)
    ensures Decode(EncodeChar(c) + rest) == Cons(c, Decode(rest))
  {
    var n := c as int;
    var s := EncodeChar(c) + rest;
    if IsUnreserved(c) {
      assert s[0] == c && s[1..] == rest;
    } else if n < 0x80 {
      assert Utf8(c) == [n];
      assert s == Escape(n) + rest;
      ReadEscapeOf(n, rest);
      assert s[3..] == rest;
    } else {
      var u := Utf8(c);
      Utf8Decodes(c);
      var m := |u|;
      assert s == Escape(u[0]) + (EscapeAll(u[1..]) + rest);
      ReadEscapeOf(u[0], EscapeAll(u[1..]) + rest);
      assert s[3..] == EscapeAll(u[1..]) + rest;
      ReadContinuationsOf(u[1..], rest);
      assert s[3 * m..] == rest;
    }
  }

  /** decodeURIComponent(encodeURIComponent(s)) == s, for every string. */
  lemma {:induction false} DecodeEncode(s: string)
    ensures Decode(Encode(s)) == Some(s)
  {
    if s != [] {
      DecodeEncodedChar(s[0], Encode(s[1..]));
      DecodeEncode(s[1..]);
      assert [s[0]] + s[1..] == s;
    }
  }

  /** encodeURIComponent leaves a string of unreserved characters unchanged. */
  lemma {:induction false} EncodeUnreserved(s: string)
    requires forall i :: 0 <= i < |s| ==> IsUnreserved(s[i])
    ensures Encode(s) == s
  {
    if s != [] {
      EncodeUnreserved(s[1..]);
      assert [s[0]] + s[1..] == s;
    }
  }

  /** decodeURIComponent leaves a string without '%' unchanged. */
  lemma {:induction false} DecodeNoEscape(s: string)
    requires forall i :: 0 <= i < |s| ==> s[i] != '%'
    ensures Decode(s) == Some(s)
  {
    if s != [] {
      DecodeNoEscape(s[1..]);
      assert [s[0]] + s[1..] == s;
    }
  }

  /** Malformed escapes are URIErrors: a bare '%', a non-hexadecimal digit, an overlong encoding, a surrogate. */
  lemma MalformedEscapes()
    ensures Decode("%") == None
    ensures Decode("%4") == None
    ensures Decode("%zz") == None
    ensures Decode("%C0%80") == None
    ensures Decode("%ED%A0%80") == None
  {
    var one: seq<Byte> := [0x80];
    assert EscapeAll(one) + "" == "%80";
    ReadContinuationsOf(one, "");
    assert ReadEscape("%C0%80") == Some(0xC0);
    assert "%C0%80"[3..] == "%80";
    var two: seq<Byte> := [0xA0, 0x80];
    assert EscapeAll(two) + "" == "%A0%80";
    ReadContinuationsOf(two, "");
    assert ReadEscape("%ED%A0%80") == Some(0xED);
    assert "%ED%A0%80"[3..] == "%A0%80";
  }
}
