/**
 * Colour strings of lib/annotations.ts: `hexToRgba` turns "#rrggbb" plus an
 * alpha into "rgba(r, g, b, a)", and `rgbaToHex` pulls the three channels out
 * of an "rgb(...)"/"rgba(...)" string with a regular expression and prints
 * them back as zero-padded lowercase hex.
 *
 * The JavaScript pieces they rest on are spelled out: `Number.parseInt` with
 * radix 16 and with no radix, `Number.prototype.toString` for integers in
 * base 10 and 16, `String.prototype.padStart`, `String.prototype.slice`, and
 * the leftmost-match search of the regular expression.
 */
module Colors {

  import opened Wrappers

  // ---------------------------------------------------------------------
  // Character classes
  // ---------------------------------------------------------------------

  /** `\d` of a regular expression without the `u` flag. */
  predicate IsDecDigit(c: char) { '0' <= c <= '9' }

  predicate IsHexDigit(c: char) { IsDecDigit(c) || 'a' <= c <= 'f' || 'A' <= c <= 'F' }

  predicate IsLowerHexDigit(c: char) { IsDecDigit(c) || 'a' <= c <= 'f' }

  /** The class `[\d.]` of the alpha part of the pattern. */
  predicate IsAlphaChar(c: char) { IsDecDigit(c) || c == '.' }

  /**
   * `\s`, which is also the set of characters `parseInt` trims from the
   * front: the ECMAScript WhiteSpace and LineTerminator characters.
   */
  predicate IsJsSpace(c: char)
  {
    || c == '\t' || c == '\n' || c == '\U{000B}' || c == '\U{000C}' || c == '\r'
    || c == ' ' || c == '\U{00A0}' || c == '\U{1680}'
    || ('\U{2000}' <= c <= '\U{200A}')
    || c == '\U{2028}' || c == '\U{2029}' || c == '\U{202F}' || c == '\U{205F}'
    || c == '\U{3000}' || c == '\U{FEFF}'
  }

  function HexValue(c: char): (v: nat)
    requires IsHexDigit(c)
    ensures v < 16
  {
    if IsDecDigit(c) then c as int - '0' as int
    else if 'a' <= c <= 'f' then c as int - 'a' as int + 10
    else c as int - 'A' as int + 10
  }

  /** The lowercase digit of value `d`, as `toString(16)` prints it. */
  function HexChar(d: nat): (c: char)
    requires d < 16
    ensures IsLowerHexDigit(c) && IsHexDigit(c) && HexValue(c) == d
  {
    if d < 10 then ('0' as int + d) as char else ('a' as int + d - 10) as char
  }

  /** ASCII lower-casing of one character. */
  function LowerChar(c: char): char
  {
    if 'A' <= c <= 'Z' then (c as int - 'A' as int + 'a' as int) as char else c
  }

  function Lower(s: string): (r: string)
    ensures |r| == |s|
    ensures forall i :: 0 <= i < |s| ==> r[i] == LowerChar(s[i])
  {
    if |s| == 0 then [] else [LowerChar(s[0])] + Lower(s[1..])
  }

  /** Printing a digit's value in lowercase gives the digit itself, lower-cased. */
  lemma HexCharOfValue(c: char)
    requires IsHexDigit(c)
    ensures HexChar(HexValue(c)) == LowerChar(c)
  {
  }

  // ---------------------------------------------------------------------
  // Splitting a string at the end of a run of characters
  // ---------------------------------------------------------------------

  /** The character classes the parsers below skip over. */
  datatype CharClass = Dec | Hex | Space | AlphaClass

  predicate InClass(c: char, k: CharClass)
  {
    match k
    case Dec => IsDecDigit(c)
    case Hex => IsHexDigit(c)
    case Space => IsJsSpace(c)
    case AlphaClass => IsAlphaChar(c)
  }

  /** The longest prefix of `t` whose characters are in class `k`, and the rest. */
  function Span(t: string, k: CharClass): (r: (string, string))
    ensures r.0 + r.1 == t
    ensures forall i :: 0 <= i < |r.0| ==> InClass(r.0[i], k)
    ensures |r.1| == 0 || !InClass(r.1[0], k)
  {
    if |t| > 0 && InClass(t[0], k) then
      var (a, b) := Span(t[1..], k);
      ConsAppend(t, a, b);
      ([t[0]] + a, b)
    else ([], t)
  }

  lemma ConsAppend(t: string, a: string, b: string)
    requires |t| > 0 && a + b == t[1..]
    ensures ([t[0]] + a) + b == t
    ensures forall i :: 0 < i < |a| + 1 ==> ([t[0]] + a)[i] == a[i - 1]
  {
    assert ([t[0]] + a) + b == [t[0]] + (a + b);
    assert [t[0]] + t[1..] == t;
  }

  /** A run of class-`k` characters followed by a stopper splits exactly there. */
  lemma {:induction false} SpanOf(d: string, u: string, k: CharClass)
    requires forall i :: 0 <= i < |d| ==> InClass(d[i], k)
    requires |u| == 0 || !InClass(u[0], k)
    ensures Span(d + u, k) == (d, u)
  {
    if |d| > 0 {
      assert (d + u)[1..] == d[1..] + u;
      SpanOf(d[1..], u, k);
      assert [d[0]] + d[1..] == d;
    } else {
      assert d + u == u;
    }
  }

  // ---------------------------------------------------------------------
  // Numbers as JavaScript parses and prints them
  // ---------------------------------------------------------------------

  /** Value of a string of hex digits, most significant first. */
  function HexDigitsValue(z: string): nat
    requires forall i :: 0 <= i < |z| ==> IsHexDigit(z[i])
  {
    if |z| == 0 then 0 else 16 * HexDigitsValue(z[..|z| - 1]) + HexValue(z[|z| - 1])
  }

  function DigitValue(c: char): (v: nat)
    requires IsDecDigit(c)
    ensures v < 10
  {
    c as int - '0' as int
  }

  /** Value of a string of decimal digits, most significant first. */
  function DecValue(z: string): nat
    requires forall i :: 0 <= i < |z| ==> IsDecDigit(z[i])
  {
    if |z| == 0 then 0 else 10 * DecValue(z[..|z| - 1]) + DigitValue(z[|z| - 1])
  }

  /**
   * `Number.parseInt(s, 16)`: skip leading white space, take one sign, drop a
   * "0x"/"0X" prefix, then read the longest run of hex digits. `None` is NaN.
   */
  function ParseIntHex(s: string): Option<int>
  {
    var s1 := Span(s, Space).1;
    var negative := |s1| > 0 && s1[0] == '-';
    var s2 := if |s1| > 0 && (s1[0] == '-' || s1[0] == '+') then s1[1..] else s1;
    var s3 := if |s2| >= 2 && s2[0] == '0' && (s2[1] == 'x' || s2[1] == 'X') then s2[2..] else s2;
    var z := Span(s3, Hex).0;
    if |z| == 0 then None
    else if negative then Some(0 - HexDigitsValue(z) as int)
    else Some(HexDigitsValue(z))
  }

  /** Decimal digits of `n` as `Number.prototype.toString()` prints them. */
  function DecString(n: nat): (r: string)
    ensures |r| > 0
    ensures forall i :: 0 <= i < |r| ==> IsDecDigit(r[i])
    ensures DecValue(r) == n
  {
    var last := ('0' as int + n % 10) as char;
    if n < 10 then
      assert DecValue([last]) == DecValue([]) * 10 + n;
      [last]
    else
      var r := DecString(n / 10) + [last];
      assert r[..|r| - 1] == DecString(n / 10);
      r
  }

  /** Lowercase hex digits of `n` as `toString(16)` prints them, no padding. */
  function HexString(n: nat): (r: string)
    ensures |r| > 0
    ensures forall i :: 0 <= i < |r| ==> IsLowerHexDigit(r[i])
    ensures n < 16 ==> r == [HexChar(n)]
    ensures 16 <= n < 256 ==> r == [HexChar(n / 16), HexChar(n % 16)]
  {
    if n < 16 then [HexChar(n)] else HexString(n / 16) + [HexChar(n % 16)]
  }

  /** `padStart(2, "0")`: zeros in front up to length two. */
  function PadStart2(s: string): (r: string)
    ensures |r| == if |s| >= 2 then |s| else 2
    ensures r[|r| - |s|..] == s
    ensures forall i :: 0 <= i < |r| - |s| ==> r[i] == '0'
  {
    if |s| >= 2 then s else if |s| == 1 then "0" + s else "00"
  }

  // ---------------------------------------------------------------------
  // Integers as IEEE 754 doubles
  // ---------------------------------------------------------------------

  function Pow2(k: nat): (r: nat)
    ensures r >= 1
  {
    if k == 0 then 1 else 2 * Pow2(k - 1)
  }

  /** 2^53: every integer below it is a double as it stands. */
  const Exact: nat := 0x20_0000_0000_0000

  /** 2^1024: a number that rounds to this or beyond is Infinity. */
  const Overflow: nat := 0x1_0000_0000_0000_0000_0000_0000_0000_0000_0000_0000_0000_0000_0000_0000_0000_0000_0000_0000_0000_0000_0000_0000_0000_0000_0000_0000_0000_0000_0000_0000_0000_0000_0000_0000_0000_0000_0000_0000_0000_0000_0000_0000_0000_0000_0000_0000_0000_0000_0000_0000_0000_0000_0000_0000_0000_0000_0000_0000_0000_0000_0000_0000_0000_0000

  /** How many low bits a double drops from `n`: the fewest that leave fewer than 54. */
  function DroppedBits(n: nat): nat
    decreases n
  {
    if n < Exact then 0 else 1 + DroppedBits(n / 2)
  }

  /** The place value of the last significand bit a double keeps of `n`. */
  function Unit(n: nat): nat
  {
    Pow2(DroppedBits(n))
  }

  /** `n` in units of `Unit(n)`, rounded to nearest, halfway cases to even. */
  function Significand(n: nat): nat
  {
    var q, r := n / Unit(n), n % Unit(n);
    if 2 * r > Unit(n) || (2 * r == Unit(n) && q % 2 == 1) then q + 1 else q
  }

  /**
   * A non-negative integer as a JavaScript number: rounded to 53 significant
   * bits; None is Infinity, what a value that rounds to 2^1024 becomes.
   */
  function ToDouble(n: nat): Option<nat>
  {
    var v := Significand(n) * Unit(n);
    if v >= Overflow then None else Some(v)
  }

  lemma DivUnique(n: int, d: int, q: int, r: int)
    requires d > 0 && n == q * d + r && 0 <= r < d
    ensures n / d == q
  {
    var q', r' := n / d, n % d;
    assert n == q' * d + r';
    if q' > q {
      MulGrows(q + 1, q', d);
    } else if q' < q {
      MulGrows(q' + 1, q, d);
    }
  }

  lemma MulGrows(a: int, b: int, d: int)
    requires a <= b && d > 0
    ensures a * d <= b * d
  {
    assert b * d - a * d == (b - a) * d;
  }

  /** Halving, then dividing by 2^k, divides by 2^(k+1). */
  lemma DivDiv(n: nat, k: nat)
    ensures n / 2 / Pow2(k) == n / Pow2(k + 1)
  {
    var p := Pow2(k);
    var q, r2, r1 := n / 2 / p, (n / 2) % p, n % 2;
    assert n / 2 == q * p + r2;
    assert n == 2 * (n / 2) + r1;
    assert n == q * (2 * p) + (2 * r2 + r1);
    DivUnique(n, 2 * p, q, 2 * r2 + r1);
  }

  /** The kept bits fit in 53 and one bit fewer dropped would not fit. */
  lemma {:induction false} DroppedBitsFit(n: nat)
    ensures n / Unit(n) < Exact
    ensures DroppedBits(n) > 0 ==> n / Pow2(DroppedBits(n) - 1) >= Exact
    decreases n
  {
    if n >= Exact {
      var k := DroppedBits(n / 2);
      DroppedBitsFit(n / 2);
      DivDiv(n, k);
      if k > 0 {
        DivDiv(n, k - 1);
      }
    }
  }

  /**
   * The double of `n` is a whole number of units with a significand of at
   * most 53 bits (2^53 itself when rounding carries), and lies within half
   * a unit of `n`.
   */
  lemma ToDoubleNearest(n: nat)
    ensures Significand(n) <= Exact
    ensures var v := Significand(n) * Unit(n);
      && (v <= n ==> 2 * (n - v) <= Unit(n))
      && (n <= v ==> 2 * (v - n) <= Unit(n))
    ensures ToDouble(n).Some? ==> ToDouble(n).value == Significand(n) * Unit(n)
  {
    DroppedBitsFit(n);
    var u := Unit(n);
    var q, r := n / u, n % u;
    assert n == q * u + r;
    if 2 * r > u || (2 * r == u && q % 2 == 1) {
      assert Significand(n) == q + 1;
      MulSucc(q, u);
    } else {
      assert Significand(n) == q;
    }
  }

  lemma MulSucc(q: int, u: int)
    ensures (q + 1) * u == q * u + u
  {
  }

  /** Integers below 2^53 are doubles unchanged. */
  lemma ToDoubleExact(n: nat)
    requires n < Exact
    ensures ToDouble(n).Some? && ToDouble(n).value == n
  {
    assert DroppedBits(n) == 0 && Unit(n) == 1;
  }

  /** 2^53 + 1 is not a double: it rounds down to the even 2^53. */
  lemma ToDoubleRounds()
    ensures ToDouble(Exact + 1).Some? && ToDouble(Exact + 1).value == Exact
  {
    assert DroppedBits(Exact / 2) == 0;
    assert DroppedBits(Exact + 1) == 1 && Unit(Exact + 1) == 2;
    assert Significand(Exact + 1) == Exact / 2;
  }

  /** A number as a template literal prints it; NaN is `None`. */
  function NumberString(v: Option<int>): string
  {
    match v
    case None => "NaN"
    case Some(n) => if n < 0 then "-" + DecString(-n) else DecString(n)
  }

  /** `String.prototype.slice(a, b)` for 0 <= a <= b. */
  function Slice(s: string, a: nat, b: nat): string
    requires a <= b
  {
    var lo := if a <= |s| then a else |s|;
    var hi := if b <= |s| then b else |s|;
    s[lo..hi]
  }

  // ---------------------------------------------------------------------
  // hexToRgba
  // ---------------------------------------------------------------------

  /** "#" followed by six hex digits, either case. */
  predicate WellFormedHex(h: string)
  {
    |h| == 7 && h[0] == '#' && forall i :: 1 <= i < 7 ==> IsHexDigit(h[i])
  }

  /** The channel parsed from the two characters at `i`, `i + 1`. */
  function Channel(h: string, i: nat): Option<int>
  {
    ParseIntHex(Slice(h, i, i + 2))
  }

  /** `parseInt` of two hex digits is their value. */
  lemma ParseHexPair(pair: string)
    requires |pair| == 2 && IsHexDigit(pair[0]) && IsHexDigit(pair[1])
    ensures ParseIntHex(pair) == Some(16 * HexValue(pair[0]) + HexValue(pair[1]))
  {
    assert !InClass(pair[0], Space);
    assert [] + pair == pair;
    SpanOf([], pair, Space);
    assert pair + [] == pair;
    SpanOf(pair, [], Hex);
    assert Span(pair, Space).1 == pair;
    assert pair[0] != '-' && pair[0] != '+';
    assert pair[1] != 'x' && pair[1] != 'X';
    assert Span(pair, Hex).0 == pair;
    HexPairValue(pair);
  }

  lemma HexPairValue(pair: string)
    requires |pair| == 2 && IsHexDigit(pair[0]) && IsHexDigit(pair[1])
    ensures HexDigitsValue(pair) == 16 * HexValue(pair[0]) + HexValue(pair[1])
  {
    var first := pair[..1];
    assert first[..0] == [];
    assert HexDigitsValue([]) == 0;
    assert HexDigitsValue(first) == HexValue(pair[0]);
  }

  /** A well-formed colour's channels are its hex pairs, each in 0..255. */
  lemma ChannelOfWellFormed(h: string, i: nat)
    requires WellFormedHex(h)
    requires i == 1 || i == 3 || i == 5
    ensures Channel(h, i).Some?
    ensures Channel(h, i).value == 16 * HexValue(h[i]) + HexValue(h[i + 1]) <= 255
  {
    var c1, c2 := h[i], h[i + 1];
    var pair := Slice(h, i, i + 2);
    assert pair == h[i..i + 2];
    assert pair[0] == c1 && pair[1] == c2;
    ParseHexPair(pair);
  }

  /**
   * The template `rgba(${r}, ${g}, ${b}, ${alpha})` with the channels and the
   * alpha as printed (grouped to the right, which is the same string).
   */
  function RgbaString(r: Option<int>, g: Option<int>, b: Option<int>, alpha: string): string
  {
    "rgba(" + (NumberString(r) + (", " + (NumberString(g) + (", " + (NumberString(b) + (", " + (alpha + ")")))))))
  }

  /** The source's default alpha 1, as printed. */
  const DefaultAlpha: string := "1"

  /**
   * hexToRgba(hex, alpha). `alpha` is the decimal rendering of the alpha
   * number, which the source interpolates as is.
   */
  function HexToRgba(hex: string, alpha: string): string
  {
    RgbaString(Channel(hex, 1), Channel(hex, 3), Channel(hex, 5), alpha)
  }

  /** The value of the hex pair at `i`, `i + 1` of a well-formed colour. */
  function PairValue(h: string, i: nat): nat
    requires WellFormedHex(h)
    requires i == 1 || i == 3 || i == 5
  {
    16 * HexValue(h[i]) + HexValue(h[i + 1])
  }

  /** One channel of a well-formed colour is the value of its hex pair. */
  lemma ChannelIsPair(hex: string, i: nat)
    requires WellFormedHex(hex)
    requires i == 1 || i == 3 || i == 5
    ensures Channel(hex, i).Some? && Channel(hex, i).value == PairValue(hex, i)
  {
    ChannelOfWellFormed(hex, i);
  }

  /** For a well-formed colour the three printed channels are its pairs, each in 0..255. */
  lemma HexToRgbaChannels(hex: string, alpha: string)
    requires WellFormedHex(hex)
    ensures HexToRgba(hex, alpha)
         == RgbaString(Some(PairValue(hex, 1)), Some(PairValue(hex, 3)), Some(PairValue(hex, 5)), alpha)
    ensures PairValue(hex, 1) <= 255 && PairValue(hex, 3) <= 255 && PairValue(hex, 5) <= 255
  {
    ChannelIsPair(hex, 1);
    ChannelIsPair(hex, 3);
    ChannelIsPair(hex, 5);
  }

  // ---------------------------------------------------------------------
  // rgbaToHex
  // ---------------------------------------------------------------------

  /** The three captured digit strings of a match. */
  datatype Groups = Groups(red: string, green: string, blue: string)

  predicate DigitString(d: string)
  {
    |d| > 0 && forall i :: 0 <= i < |d| ==> IsDecDigit(d[i])
  }

  predicate AlphaString(a: string)
  {
    |a| > 0 && forall i :: 0 <= i < |a| ==> IsAlphaChar(a[i])
  }

  predicate ValidGroups(m: Groups)
  {
    DigitString(m.red) && DigitString(m.green) && DigitString(m.blue)
  }

  /*
   * The pattern `rgba?\((\d+),\s*(\d+),\s*(\d+)(?:,\s*[\d.]+)?\)` anchored at
   * the start of a string, one stage per channel. Every quantifier in it is
   * followed by a character its class excludes, so the greedy choice is the
   * only one that can succeed and no backtracking is needed.
   */

  /** What may follow the third channel: `(?:,\s*[\d.]+)?\)`. */
  predicate Closes(t: string)
  {
    |t| > 0 &&
    (t[0] == ')' ||
     (t[0] == ',' &&
      var (a, rest) := Span(Span(t[1..], Space).1, AlphaClass);
      |a| > 0 && |rest| > 0 && rest[0] == ')'))
  }

  /** `(\d+)` and what follows the third channel. */
  function ThirdChannel(red: string, green: string, u: string): (m: Option<Groups>)
    requires DigitString(red) && DigitString(green)
    ensures m.Some? ==> ValidGroups(m.value)
  {
    var (d, rest) := Span(Span(u, Space).1, Dec);
    if |d| > 0 && Closes(rest) then Some(Groups(red, green, d)) else None
  }

  /** `\s*(\d+),` and the rest. */
  function SecondChannel(red: string, u: string): (m: Option<Groups>)
    requires DigitString(red)
    ensures m.Some? ==> ValidGroups(m.value)
  {
    var (d, rest) := Span(Span(u, Space).1, Dec);
    if |d| > 0 && |rest| > 0 && rest[0] == ',' then ThirdChannel(red, d, rest[1..]) else None
  }

  /** `(\d+),` and the rest. */
  function FirstChannel(u: string): (m: Option<Groups>)
    ensures m.Some? ==> ValidGroups(m.value)
  {
    var (d, rest) := Span(u, Dec);
    if |d| > 0 && |rest| > 0 && rest[0] == ',' then SecondChannel(d, rest[1..]) else None
  }

  /** The whole pattern, anchored at the start of `t`. */
  function MatchHere(t: string): (m: Option<Groups>)
    ensures m.Some? ==> ValidGroups(m.value)
  {
    if !(|t| >= 4 && t[..3] == "rgb") then None
    else
      var t1 := t[3..];
      var t2 := if t1[0] == 'a' then t1[1..] else t1;
      if |t2| > 0 && t2[0] == '(' then FirstChannel(t2[1..]) else None
  }

  /** `String.prototype.match`: the match starting leftmost in `s`, if any. */
  function Search(s: string): (m: Option<Groups>)
    ensures m.Some? ==> ValidGroups(m.value)
  {
    if MatchHere(s).Some? then MatchHere(s)
    else if |s| == 0 then None
    else Search(s[1..])
  }

  /** One channel of the result: decimal value, printed in hex, padded to two. */
  function HexPair(d: string): string
    requires DigitString(d)
  {
    match ToDouble(DecValue(d))
    case None => "Infinity"
    case Some(v) => PadStart2(HexString(v))
  }

  /** rgbaToHex: "#rrggbb" from an rgb(a) string, "#000000" on no match. */
  function RgbaToHex(s: string): string
  {
    match Search(s)
    case None => "#000000"
    case Some(m) => "#" + HexPair(m.red) + HexPair(m.green) + HexPair(m.blue)
  }

  /**
   * Each channel prints as at least two characters: lowercase hex digits of
   * its value as a double, exactly two up to 255, or "Infinity".
   */
  lemma HexPairShape(d: string)
    requires DigitString(d)
    ensures |HexPair(d)| >= 2
    ensures DecValue(d) <= 255 ==> |HexPair(d)| == 2
    ensures ToDouble(DecValue(d)).None? ==> HexPair(d) == "Infinity"
    ensures ToDouble(DecValue(d)).Some? ==> forall i :: 0 <= i < |HexPair(d)| ==> IsLowerHexDigit(HexPair(d)[i])
  {
    if DecValue(d) <= 255 {
      ToDoubleExact(DecValue(d));
    }
    match ToDouble(DecValue(d))
    case None =>
    case Some(v) =>
      var h := HexString(v);
      assert HexPair(d) == PadStart2(h);
      if |h| < 2 {
        assert PadStart2(h) == "0" + h;
      }
  }

  /** Every channel of a match is a finite double. */
  predicate FiniteChannels(m: Groups)
    requires ValidGroups(m)
  {
    && ToDouble(DecValue(m.red)).Some?
    && ToDouble(DecValue(m.green)).Some?
    && ToDouble(DecValue(m.blue)).Some?
  }

  /**
   * The shape of rgbaToHex's result: "#" then lowercase hex digits when
   * every channel is a finite double, seven characters in all when every
   * channel is at most 255, "Infinity" in place of a red channel too large
   * for a double, and the fallback "#000000" when nothing matches.
   */
  lemma RgbaToHexShape(s: string)
    ensures Search(s).None? ==> RgbaToHex(s) == "#000000"
    ensures |RgbaToHex(s)| >= 7 && RgbaToHex(s)[0] == '#'
    ensures Search(s).Some? && FiniteChannels(Search(s).value) ==>
      forall i :: 1 <= i < |RgbaToHex(s)| ==> IsLowerHexDigit(RgbaToHex(s)[i])
    ensures (Search(s).Some? &&
             DecValue(Search(s).value.red) <= 255 &&
             DecValue(Search(s).value.green) <= 255 &&
             DecValue(Search(s).value.blue) <= 255) ==> |RgbaToHex(s)| == 7
    ensures Search(s).Some? && ToDouble(DecValue(Search(s).value.red)).None? ==>
      RgbaToHex(s)[1..9] == "Infinity"
  {
    match Search(s)
    case None =>
    case Some(m) =>
      HexPairShape(m.red);
      HexPairShape(m.green);
      HexPairShape(m.blue);
      HashLength(HexPair(m.red), HexPair(m.green), HexPair(m.blue));
      if FiniteChannels(m) {
        HashDigits(HexPair(m.red), HexPair(m.green), HexPair(m.blue));
      }
  }

  /** "#" followed by three runs, the first of them right after the "#". */
  lemma HashLength(r: string, g: string, b: string)
    ensures var out := "#" + r + g + b;
      && out[0] == '#' && |out| == 1 + |r| + |g| + |b|
      && out[1..1 + |r|] == r
  {
  }

  /** "#" followed by three runs of lowercase hex digits. */
  lemma HashDigits(r: string, g: string, b: string)
    requires forall i :: 0 <= i < |r| ==> IsLowerHexDigit(r[i])
    requires forall i :: 0 <= i < |g| ==> IsLowerHexDigit(g[i])
    requires forall i :: 0 <= i < |b| ==> IsLowerHexDigit(b[i])
    ensures var out := "#" + r + g + b;
      && out[0] == '#' && |out| == 1 + |r| + |g| + |b|
      && forall i :: 1 <= i < |out| ==> IsLowerHexDigit(out[i])
  {
    var out := "#" + r + g + b;
    forall i | 1 <= i < |out|
      ensures IsLowerHexDigit(out[i])
    {
      if i < 1 + |r| {
        assert out[i] == r[i - 1];
      } else if i < 1 + |r| + |g| {
        assert out[i] == g[i - 1 - |r|];
      } else {
        assert out[i] == b[i - 1 - |r| - |g|];
      }
    }
  }

  predicate RgbAt(s: string, i: int)
  {
    0 <= i <= |s| - 3 && s[i..i + 3] == "rgb"
  }

  /** Whether "rgb" occurs somewhere in `s`. */
  predicate MentionsRgb(s: string)
  {
    exists i | 0 <= i <= |s| :: RgbAt(s, i)
  }

  lemma {:induction false} NoRgbNoMatch(s: string)
    requires !MentionsRgb(s)
    ensures Search(s) == None
    decreases |s|
  {
    if |s| >= 3 {
      assert s[0..3] == s[..3];
      assert !RgbAt(s, 0);
    }
    if |s| > 0 {
      if MentionsRgb(s[1..]) {
        var i :| 0 <= i <= |s[1..]| && RgbAt(s[1..], i);
        assert s[i + 1..i + 4] == s[1..][i..i + 3];
        assert RgbAt(s, i + 1);
      }
      NoRgbNoMatch(s[1..]);
    }
  }

  /** A string that never mentions "rgb" converts to the fallback "#000000". */
  lemma RgbaToHexFallback(s: string)
    requires !MentionsRgb(s)
    ensures RgbaToHex(s) == "#000000"
  {
    NoRgbNoMatch(s);
  }

  // ---------------------------------------------------------------------
  // The round trip
  // ---------------------------------------------------------------------

  lemma MatchPrefix(u: string)
    ensures MatchHere("rgba(" + u) == FirstChannel(u)
  {
    var t := "rgba(" + u;
    assert t[..3] == "rgb";
    assert t[3..] == "a(" + u;
    assert t[3..][1..] == "(" + u;
    assert ("(" + u)[1..] == u;
  }

  lemma FirstOf(d: string, w: string)
    requires DigitString(d)
    ensures FirstChannel(d + (", " + w)) == SecondChannel(d, " " + w)
  {
    SpanOf(d, ", " + w, Dec);
    assert (", " + w)[1..] == " " + w;
  }

  lemma SecondOf(red: string, d: string, w: string)
    requires DigitString(red) && DigitString(d)
    ensures SecondChannel(red, " " + (d + (", " + w))) == ThirdChannel(red, d, " " + w)
  {
    SpanOf(" ", d + (", " + w), Space);
    SpanOf(d, ", " + w, Dec);
    assert (", " + w)[1..] == " " + w;
  }

  lemma ThirdOf(red: string, green: string, d: string, w: string)
    requires DigitString(red) && DigitString(green) && DigitString(d)
    requires |w| > 0 && !IsDecDigit(w[0])
    ensures ThirdChannel(red, green, " " + (d + w)) == if Closes(w) then Some(Groups(red, green, d)) else None
  {
    SpanOf(" ", d + w, Space);
    SpanOf(d, w, Dec);
  }

  lemma ClosesAlpha(alpha: string)
    requires AlphaString(alpha)
    ensures Closes(", " + (alpha + ")"))
  {
    var t := ", " + (alpha + ")");
    assert t[1..] == " " + (alpha + ")");
    SpanOf(" ", alpha + ")", Space);
    SpanOf(alpha, ")", AlphaClass);
  }

  /** The leftmost match of a printed rgba string captures its three channels. */
  lemma MatchRgbaString(r: nat, g: nat, b: nat, alpha: string)
    requires AlphaString(alpha)
    ensures Search(RgbaString(Some(r), Some(g), Some(b), alpha))
         == Some(Groups(DecString(r), DecString(g), DecString(b)))
  {
    var dr, dg, db := DecString(r), DecString(g), DecString(b);
    var w3 := alpha + ")";
    var w2 := dg + (", " + (db + (", " + w3)));
    MatchPrefix(dr + (", " + w2));
    FirstOf(dr, w2);
    assert " " + w2 == " " + (dg + (", " + (db + (", " + w3))));
    SecondOf(dr, dg, db + (", " + w3));
    ClosesAlpha(alpha);
    ThirdOf(dr, dg, db, ", " + w3);
  }

  /** The two printed hex digits of a value below 256. */
  lemma HexDigitsOfByte(a: nat, b: nat)
    requires a < 16 && b < 16
    ensures PadStart2(HexString(16 * a + b)) == [HexChar(a), HexChar(b)]
  {
    var n := 16 * a + b;
    if a == 0 {
      assert n == b;
      var one := HexString(b);
      assert one == [HexChar(b)];
      assert PadStart2(one) == "0" + one;
      assert HexChar(0) == '0';
    } else {
      assert 16 <= n < 256 && n / 16 == a && n % 16 == b;
      assert HexString(n) == [HexChar(a), HexChar(b)];
    }
  }

  /** The hex pair a channel parsed from `c1 c2` prints as: `c1 c2`, lower-cased. */
  lemma HexPairOfChannel(c1: char, c2: char, n: nat)
    requires IsHexDigit(c1) && IsHexDigit(c2)
    requires n == 16 * HexValue(c1) + HexValue(c2)
    ensures HexPair(DecString(n)) == [LowerChar(c1), LowerChar(c2)]
  {
    ToDoubleExact(n);
    assert HexPair(DecString(n)) == PadStart2(HexString(n));
    HexDigitsOfByte(HexValue(c1), HexValue(c2));
    HexCharOfValue(c1);
    HexCharOfValue(c2);
  }

  /** rgbaToHex of a printed rgba string prints its three channels in hex. */
  lemma RgbaToHexOfRgbaString(r: nat, g: nat, b: nat, alpha: string)
    requires AlphaString(alpha)
    ensures RgbaToHex(RgbaString(Some(r), Some(g), Some(b), alpha))
         == "#" + HexPair(DecString(r)) + HexPair(DecString(g)) + HexPair(DecString(b))
  {
    MatchRgbaString(r, g, b, alpha);
  }

  /** A well-formed colour lower-cased, pair by pair. */
  lemma LowerOfWellFormed(h: string)
    requires WellFormedHex(h)
    ensures Lower(h) == "#" + [LowerChar(h[1]), LowerChar(h[2])] + [LowerChar(h[3]), LowerChar(h[4])]
                            + [LowerChar(h[5]), LowerChar(h[6])]
  {
    assert LowerChar(h[0]) == '#';
  }

  /** The printed hex pair of channel `i` of a well-formed colour is its pair, lower-cased. */
  lemma PairPrintsLower(h: string, i: nat)
    requires WellFormedHex(h)
    requires i == 1 || i == 3 || i == 5
    ensures HexPair(DecString(PairValue(h, i))) == [LowerChar(h[i]), LowerChar(h[i + 1])]
  {
    PairDigits(h, i);
    HexPairOfChannel(h[i], h[i + 1], PairValue(h, i));
  }

  lemma PairDigits(h: string, i: nat)
    requires WellFormedHex(h)
    requires i == 1 || i == 3 || i == 5
    ensures IsHexDigit(h[i]) && IsHexDigit(h[i + 1])
    ensures PairValue(h, i) == 16 * HexValue(h[i]) + HexValue(h[i + 1])
  {
  }

  /**
   * Round trip: converting a well-formed hex colour to rgba and back gives
   * the colour again, but lower-cased (so "#FCA5A5" comes back "#fca5a5").
   */
  lemma RoundTrip(h: string, alpha: string)
    requires WellFormedHex(h)
    requires AlphaString(alpha)
    ensures RgbaToHex(HexToRgba(h, alpha)) == Lower(h)
  {
    var p1, p3, p5 := PairValue(h, 1), PairValue(h, 3), PairValue(h, 5);
    HexToRgbaChannels(h, alpha);
    RgbaToHexOfRgbaString(p1, p3, p5, alpha);
    PairPrintsLower(h, 1);
    PairPrintsLower(h, 3);
    PairPrintsLower(h, 5);
    LowerOfWellFormed(h);
  }

  /** The round trip is exact precisely when the input has no upper-case digit. */
  lemma RoundTripExactIffLower(h: string, alpha: string)
    requires WellFormedHex(h)
    requires AlphaString(alpha)
    ensures RgbaToHex(HexToRgba(h, alpha)) == h <==> forall i :: 1 <= i < 7 ==> IsLowerHexDigit(h[i])
  {
    RoundTrip(h, alpha);
    LowerFixedIff(h);
  }

  /** Lower-casing leaves a well-formed colour alone exactly when its digits are lowercase. */
  lemma LowerFixedIff(h: string)
    requires WellFormedHex(h)
    ensures Lower(h) == h <==> forall i :: 1 <= i < 7 ==> IsLowerHexDigit(h[i])
  {
    var r := Lower(h);
    if forall i :: 1 <= i < 7 ==> IsLowerHexDigit(h[i]) {
      forall i | 0 <= i < |h|
        ensures r[i] == h[i]
      {
      }
    } else {
      var i :| 1 <= i < 7 && !IsLowerHexDigit(h[i]);
      assert r[i] != h[i];
    }
  }

  /** rgbaToHex reads the three channels only: the alpha makes no difference. */
  lemma AlphaIgnored(r: nat, g: nat, b: nat, a1: string, a2: string)
    requires AlphaString(a1) && AlphaString(a2)
    ensures RgbaToHex(RgbaString(Some(r), Some(g), Some(b), a1))
         == RgbaToHex(RgbaString(Some(r), Some(g), Some(b), a2))
  {
    MatchRgbaString(r, g, b, a1);
    MatchRgbaString(r, g, b, a2);
  }

  // ---------------------------------------------------------------------
  // Default colours
  // ---------------------------------------------------------------------

  const DefaultStrokeColor: string := "#FCA5A5"
  const DefaultFillAlpha: string := "0.3"
  const DefaultFillColor: string := "rgba(252, 165, 165, " + DefaultFillAlpha + ")"
  const DefaultTextColor: string := "#1F2937"
  const DefaultHighlightAlpha: string := "0.5"
  const DefaultHighlightColor: string := "rgba(253, 224, 71, " + DefaultHighlightAlpha + ")"
  const DefaultPixelSize: int := 10

  /** The swatch colours offered by the colour pickers. */
  const PredefinedOpaqueColors: seq<string> :=
    ["#FCA5A5", "#FDBA74", "#FDE047", "#86EFAC", "#93C5FD", "#A5B4FC", "#1F2937"]

  /** The printed form of a number below 1000, digit by digit. */
  function DigitChar(d: nat): char
    requires d < 10
  {
    ('0' as int + d) as char
  }

  lemma DecStringBelow1000(n: nat)
    requires 10 <= n < 1000
    ensures n < 100 ==> DecString(n) == [DigitChar(n / 10), DigitChar(n % 10)]
    ensures 100 <= n ==> DecString(n) == [DigitChar(n / 100), DigitChar(n / 10 % 10), DigitChar(n % 10)]
  {
    if 100 <= n {
      assert DecString(n / 10) == [DigitChar(n / 100), DigitChar(n / 10 % 10)];
    }
  }

  lemma PrintsAs(n: nat, d: string)
    requires 10 <= n < 1000
    requires n < 100 ==> d == [DigitChar(n / 10), DigitChar(n % 10)]
    requires 100 <= n ==> d == [DigitChar(n / 100), DigitChar(n / 10 % 10), DigitChar(n % 10)]
    ensures NumberString(Some(n)) == d
  {
    DecStringBelow1000(n);
  }

  lemma StrokeWellFormed()
    ensures WellFormedHex(DefaultStrokeColor)
    ensures PairValue(DefaultStrokeColor, 1) == 252
  {
    assert DefaultStrokeColor[1] == 'F' && DefaultStrokeColor[2] == 'C';
  }

  /** The default stroke colour's three channels. */
  lemma StrokeChannels()
    ensures HexToRgba(DefaultStrokeColor, DefaultFillAlpha)
         == RgbaString(Some(252), Some(165), Some(165), DefaultFillAlpha)
  {
    StrokeWellFormed();
    assert PairValue(DefaultStrokeColor, 3) == 165;
    assert PairValue(DefaultStrokeColor, 5) == 165;
    HexToRgbaChannels(DefaultStrokeColor, DefaultFillAlpha);
  }

  lemma FillPrinted()
    ensures RgbaString(Some(252), Some(165), Some(165), DefaultFillAlpha) == DefaultFillColor
  {
    PrintsAs(252, "252");
    PrintsAs(165, "165");
    FillLiteral();
  }

  lemma FillLiteral()
    ensures "rgba(" + ("252" + (", " + ("165" + (", " + ("165" + (", " + (DefaultFillAlpha + ")"))))))) == DefaultFillColor
  {
  }

  /**
   * The default fill colour is exactly hexToRgba of the default stroke colour
   * at the default fill alpha (so by RoundTrip it converts back to that
   * colour, lower-cased).
   */
  lemma DefaultFillIsStrokeColor()
    ensures DefaultFillColor == HexToRgba(DefaultStrokeColor, DefaultFillAlpha)
  {
    StrokeChannels();
    FillPrinted();
  }

  lemma SwatchWellFormed()
    ensures WellFormedHex(PredefinedOpaqueColors[2])
    ensures PairValue(PredefinedOpaqueColors[2], 1) == 253
  {
    assert PredefinedOpaqueColors[2][1] == 'F' && PredefinedOpaqueColors[2][2] == 'D';
  }

  /** The third swatch's three channels. */
  lemma SwatchChannels()
    ensures HexToRgba(PredefinedOpaqueColors[2], DefaultHighlightAlpha)
         == RgbaString(Some(253), Some(224), Some(71), DefaultHighlightAlpha)
  {
    SwatchWellFormed();
    assert PairValue(PredefinedOpaqueColors[2], 3) == 224;
    assert PairValue(PredefinedOpaqueColors[2], 5) == 71;
    HexToRgbaChannels(PredefinedOpaqueColors[2], DefaultHighlightAlpha);
  }

  lemma HighlightPrinted()
    ensures RgbaString(Some(253), Some(224), Some(71), DefaultHighlightAlpha) == DefaultHighlightColor
  {
    PrintsAs(253, "253");
    PrintsAs(224, "224");
    PrintsAs(71, "71");
    HighlightLiteral();
  }

  lemma HighlightLiteral()
    ensures "rgba(" + ("253" + (", " + ("224" + (", " + ("71" + (", " + (DefaultHighlightAlpha + ")"))))))) == DefaultHighlightColor
  {
  }

  /**
   * The default highlight colour is hexToRgba of the third swatch, "#FDE047",
   * at the default highlight alpha.
   */
  lemma DefaultHighlightIsSwatch()
    ensures DefaultHighlightColor == HexToRgba(PredefinedOpaqueColors[2], DefaultHighlightAlpha)
  {
    SwatchChannels();
    HighlightPrinted();
  }

  /** The round trip of RoundTrip, for a string already known to be the rgba form. */
  lemma RoundTripOf(c: string, h: string, alpha: string)
    requires WellFormedHex(h) && AlphaString(alpha)
    requires c == HexToRgba(h, alpha)
    ensures RgbaToHex(c) == Lower(h)
  {
    RoundTrip(h, alpha);
  }

  lemma FillAlphaWellFormed()
    ensures AlphaString(DefaultFillAlpha) && AlphaString(DefaultHighlightAlpha)
  {
  }

  lemma LowerStroke()
    ensures Lower(DefaultStrokeColor) == "#fca5a5"
  {
    var r := Lower(DefaultStrokeColor);
    assert r[1] == 'f' && r[2] == 'c' && r[3] == 'a' && r[4] == '5' && r[5] == 'a' && r[6] == '5';
  }

  lemma LowerSwatch()
    ensures Lower(PredefinedOpaqueColors[2]) == "#fde047"
  {
    var r := Lower(PredefinedOpaqueColors[2]);
    assert r[1] == 'f' && r[2] == 'd' && r[3] == 'e' && r[4] == '0' && r[5] == '4' && r[6] == '7';
  }

  /** rgbaToHex of the default fill colour (`c`) is "#fca5a5", the default stroke colour lower-cased. */
  lemma DefaultFillConvertsBack(c: string)
    requires c == DefaultFillColor
    ensures RgbaToHex(c) == "#fca5a5"
  {
    DefaultFillIsStrokeColor();
    StrokeWellFormed();
    FillAlphaWellFormed();
    RoundTripOf(c, DefaultStrokeColor, DefaultFillAlpha);
    LowerStroke();
  }

  /** rgbaToHex of the default highlight colour (`c`) is "#fde047", the third swatch lower-cased. */
  lemma DefaultHighlightConvertsBack(c: string)
    requires c == DefaultHighlightColor
    ensures RgbaToHex(c) == "#fde047"
  {
    DefaultHighlightIsSwatch();
    SwatchWellFormed();
    FillAlphaWellFormed();
    RoundTripOf(c, PredefinedOpaqueColors[2], DefaultHighlightAlpha);
    LowerSwatch();
  }
}
