/**
 * The `hexToRgb` of js/script.js: it slices characters 1-2, 3-4 and 5-6 out of the
 * string and hands each slice to `parseInt(·, 16)`, without checking the `#` or the
 * length. The result of `parseInt` is a number or NaN, so each channel is a `JsNumber`.
 */
module StrictHex {
  import opened Types
  import opened Color

  /** A JavaScript number as `parseInt` can produce it: an integer, or NaN. */
  datatype JsNumber = Num(value: int) | NaN

  /** `String.prototype.slice(start, end)` for non-negative bounds: both are clamped to the length. */
  function Slice(s: string, start: nat, end: nat): (r: string)
    requires start <= end
    ensures |r| <= end - start
    ensures |r| > 0 ==> start + |r| <= |s|
    ensures forall i :: 0 <= i < |r| ==> r[i] == s[start + i]
    ensures end <= |s| ==> |r| == end - start
    ensures start < |s| < end ==> start + |r| == |s|
    ensures |s| <= start ==> r == []
  {
    var lo := if start < |s| then start else |s|;
    var hi := if end < |s| then end else |s|;
    s[lo..hi]
  }

  /** The white-space and line-terminator characters that `parseInt` skips before a number. */
  predicate IsJsWhiteSpace(c: char)
  {
    var n := c as int;
    n == 0x09 || n == 0x0A || n == 0x0B || n == 0x0C || n == 0x0D || n == 0x20 ||
    n == 0xA0 || n == 0x1680 || (0x2000 <= n <= 0x200A) || n == 0x2028 || n == 0x2029 ||
    n == 0x202F || n == 0x205F || n == 0x3000 || n == 0xFEFF
  }

  /** Every character of p is white space. */
  predicate AllWhiteSpace(p: string)
  {
    |p| == 0 || (IsJsWhiteSpace(p[0]) && AllWhiteSpace(p[1..]))
  }

  /** A white-space character in front of a suffix of s[1..] after white space gives a suffix of s after white space. */
  lemma TrimStep(s: string, r: string)
    requires |s| > 0 && IsJsWhiteSpace(s[0])
    requires |r| <= |s| - 1 && r == s[1..][|s| - 1 - |r|..] && AllWhiteSpace(s[1..][..|s| - 1 - |r|])
    ensures r == s[|s| - |r|..] && AllWhiteSpace(s[..|s| - |r|])
  {
    var k := |s| - |r|;
    assert s[..k] == [s[0]] + s[1..][..k - 1];
    assert ([s[0]] + s[1..][..k - 1])[1..] == s[1..][..k - 1];
    assert s[k..] == s[1..][k - 1..];
  }

  /** The string after its leading white space: every dropped character is white space, the first kept one is not. */
  function TrimStart(s: string): (r: string)
    ensures |r| <= |s| && r == s[|s| - |r|..]
    ensures AllWhiteSpace(s[..|s| - |r|])
    ensures |r| > 0 ==> !IsJsWhiteSpace(r[0])
    ensures (|s| > 0 && !IsJsWhiteSpace(s[0])) ==> r == s
  {
    if |s| > 0 && IsJsWhiteSpace(s[0]) then
      var r := TrimStart(s[1..]);
      TrimStep(s, r);
      r
    else s
  }

  /** The length of the longest prefix of `s` made of hexadecimal digits. */
  function HexPrefixLength(s: string): (n: nat)
    ensures n <= |s|
    ensures AllHexDigits(s[..n])
    ensures n < |s| ==> !IsHexDigit(s[n])
  {
    if |s| > 0 && IsHexDigit(s[0]) then
      var n := 1 + HexPrefixLength(s[1..]);
      assert s[..n] == [s[0]] + s[1..][..n - 1];
      n
    else 0
  }

  /** The value of a string of hexadecimal digits, most significant first. */
  function HexValue(s: string): (v: nat)
    requires AllHexDigits(s)
  {
    if s == [] then 0 else HexValue(s[..|s| - 1]) * 16 + DigitValue(s[|s| - 1])
  }

  /** The sign `parseInt` reads after the white space, and the rest of the string. */
  function SplitSign(t: string): (r: (bool, string))
    ensures r.0 <==> (|t| > 0 && t[0] == '-')
    ensures (|t| > 0 && (t[0] == '-' || t[0] == '+')) ==> r.1 == t[1..]
    ensures !(|t| > 0 && (t[0] == '-' || t[0] == '+')) ==> r.1 == t
  {
    if |t| > 0 && t[0] == '-' then (true, t[1..])
    else if |t| > 0 && t[0] == '+' then (false, t[1..])
    else (false, t)
  }

  /** With radix 16, a leading `0x` or `0X` is dropped. */
  function StripHexPrefix(u: string): (w: string)
    ensures (|u| >= 2 && u[0] == '0' && (u[1] == 'x' || u[1] == 'X')) ==> w == u[2..]
    ensures !(|u| >= 2 && u[0] == '0' && (u[1] == 'x' || u[1] == 'X')) ==> w == u
  {
    if |u| >= 2 && u[0] == '0' && (u[1] == 'x' || u[1] == 'X') then u[2..] else u
  }

  /** The longest run of hexadecimal digits at the front of `w`; none at all gives NaN. */
  function ParseDigits(w: string): (n: JsNumber)
    ensures n.Num? <==> (|w| > 0 && IsHexDigit(w[0]))
    ensures n.Num? ==> n.value >= 0
    ensures n.Num? ==> n.value == HexValue(w[..HexPrefixLength(w)])
  {
    var len := HexPrefixLength(w);
    if len == 0 then NaN else Num(HexValue(w[..len]))
  }

  /**
   * `parseInt(s, 16)`: skip leading white space, take an optional sign, drop a `0x`/`0X`
   * prefix, then read the longest run of hexadecimal digits; no digits at all gives NaN.
   */
  function ParseIntHex(s: string): (n: JsNumber)
  {
    var sign := SplitSign(TrimStart(s));
    var digits := ParseDigits(StripHexPrefix(sign.1));
    if sign.0 then Negate(digits) else digits
  }

  /** Unary minus on a number; NaN stays NaN. */
  function Negate(n: JsNumber): (m: JsNumber)
    ensures m.Num? <==> n.Num?
    ensures m.Num? ==> m.value + n.value == 0
  {
    match n
    case NaN => NaN
    case Num(v) => Num(-v)
  }

  /** Leading white space does not change what parseInt reads. */
  lemma ParseIntSkipsWhiteSpace(c: char, s: string)
    requires IsJsWhiteSpace(c)
    ensures ParseIntHex([c] + s) == ParseIntHex(s)
  {
    assert ([c] + s)[1..] == s;
  }

  /** A string that starts with neither white space nor a sign is read with a positive sign. */
  lemma ParseIntUnsigned(s: string)
    requires |s| > 0 ==> !IsJsWhiteSpace(s[0]) && s[0] != '-' && s[0] != '+'
    ensures ParseIntHex(s) == ParseDigits(StripHexPrefix(s))
  {
    assert TrimStart(s) == s;
  }

  /** A leading `-` is read as the sign and negates what the rest of the string gives. */
  lemma ParseIntMinus(s: string)
    ensures ParseIntHex("-" + s) == Negate(ParseDigits(StripHexPrefix(s)))
  {
    var neg := "-" + s;
    assert neg[0] == '-' && neg[1..] == s;
    assert TrimStart(neg) == neg;
  }

  /** A leading `+` is read as the sign and keeps what the rest of the string gives. */
  lemma ParseIntPlus(s: string)
    ensures ParseIntHex("+" + s) == ParseDigits(StripHexPrefix(s))
  {
    var pos := "+" + s;
    assert pos[0] == '+' && pos[1..] == s;
    assert TrimStart(pos) == pos;
  }

  /**
   * A sign right before the number is applied: `-` negates what follows and `+` keeps it.
   * The rest must not start with white space or another sign, which parseInt reads only once.
   */
  lemma ParseIntSign(s: string)
    requires |s| > 0 ==> !IsJsWhiteSpace(s[0]) && s[0] != '-' && s[0] != '+'
    ensures ParseIntHex("-" + s) == Negate(ParseIntHex(s))
    ensures ParseIntHex("+" + s) == ParseIntHex(s)
  {
    ParseIntUnsigned(s);
    ParseIntMinus(s);
    ParseIntPlus(s);
  }

  /** With radix 16 a leading `0x` or `0X` is skipped, and the digits after it are read. */
  lemma ParseIntHexPrefix(d: string)
    ensures ParseIntHex("0x" + d) == ParseDigits(d)
    ensures ParseIntHex("0X" + d) == ParseDigits(d)
  {
    assert ("0x" + d)[2..] == d && ("0X" + d)[2..] == d;
  }

  /** Reading stops at the first character that is not a hexadecimal digit: the digits before it are the value. */
  lemma ParseDigitsStops(d: string, rest: string)
    requires 0 < |d| && AllHexDigits(d) && (|rest| > 0 ==> !IsHexDigit(rest[0]))
    ensures ParseDigits(d + rest) == Num(HexValue(d))
  {
    HexPrefixOfDigits(d, rest);
    assert (d + rest)[..|d|] == d;
  }

  lemma {:induction false} HexPrefixOfDigits(d: string, rest: string)
    requires AllHexDigits(d) && (|rest| > 0 ==> !IsHexDigit(rest[0]))
    ensures HexPrefixLength(d + rest) == |d|
  {
    if |d| > 0 {
      assert (d + rest)[0] == d[0] && (d + rest)[1..] == d[1..] + rest;
      HexPrefixOfDigits(d[1..], rest);
    } else {
      assert d + rest == rest;
    }
  }

  /** parseInt reads digits up to the first non-digit, unless the string starts with a `0x` prefix. */
  lemma ParseIntStops(d: string, rest: string)
    requires 0 < |d| && AllHexDigits(d) && (|rest| > 0 ==> !IsHexDigit(rest[0]))
    requires !(|d + rest| >= 2 && d[0] == '0' && ((d + rest)[1] == 'x' || (d + rest)[1] == 'X'))
    ensures ParseIntHex(d + rest) == Num(HexValue(d))
  {
    assert (d + rest)[0] == d[0];
    PlainDigits(d + rest);
    ParseDigitsStops(d, rest);
  }

  /** A hexadecimal digit followed by a non-digit reads as that one digit, unless the pair is a `0x` prefix. */
  lemma ParseIntStopsAtNonDigit(h: char, g: char)
    requires IsHexDigit(h) && !IsHexDigit(g) && !(h == '0' && (g == 'x' || g == 'X'))
    ensures ParseIntHex([h, g]) == Num(DigitValue(h))
  {
    assert [h] + [g] == [h, g];
    ParseIntStops([h], [g]);
    HexValueDigit(h);
  }

  lemma HexValueDigit(h: char)
    requires IsHexDigit(h)
    ensures HexValue([h]) == DigitValue(h)
  {
    assert [h][..0] == [];
  }

  /**
   * So a red slice made of a digit and a non-digit gives that digit's value: `#fg0000` is
   * not a colour, yet its red channel is 15.
   */
  lemma HexToRgbStopsAtNonDigit(hex: string)
    requires |hex| >= 3 && IsHexDigit(hex[1]) && !IsHexDigit(hex[2])
    requires !(hex[1] == '0' && (hex[2] == 'x' || hex[2] == 'X'))
    ensures HexToRgb(hex)[0] == Num(DigitValue(hex[1]))
  {
    var red := Slice(hex, 1, 3);
    assert red == [hex[1], hex[2]];
    ParseIntStopsAtNonDigit(hex[1], hex[2]);
  }

  /** hexToRgb of js/script.js: `[parseInt(hex.slice(1,3),16), …(3,5)…, …(5,7)…]`. */
  function HexToRgb(hex: string): (rgb: seq<JsNumber>)
    ensures |rgb| == 3
  {
    [ParseIntHex(Slice(hex, 1, 3)), ParseIntHex(Slice(hex, 3, 5)), ParseIntHex(Slice(hex, 5, 7))]
  }

  /** A string that starts with a hexadecimal digit other than a `0x` prefix is read as digits alone. */
  lemma PlainDigits(s: string)
    requires |s| > 0 && IsHexDigit(s[0]) && !(|s| >= 2 && s[0] == '0' && (s[1] == 'x' || s[1] == 'X'))
    ensures ParseIntHex(s) == ParseDigits(s)
  {
    assert TrimStart(s) == s by {
      assert !IsJsWhiteSpace(s[0]);
    }
    assert SplitSign(s) == (false, s);
    assert StripHexPrefix(s) == s;
  }

  /** Two hexadecimal digits parse to their value, which is a byte. */
  lemma ParsePair(s: string)
    requires |s| == 2 && AllHexDigits(s)
    ensures ParseIntHex(s) == Num(PairValue(s[0], s[1]))
    ensures 0 <= PairValue(s[0], s[1]) < 256
  {
    assert IsHexDigit(s[0]) && IsHexDigit(s[1]);
    PlainDigits(s);
    assert HexPrefixLength(s) == 2 by {
      assert HexPrefixLength(s[1..][1..]) == 0;
    }
    assert s[..2] == s;
    HexValuePair(s);
  }

  lemma HexValuePair(s: string)
    requires |s| == 2 && AllHexDigits(s)
    ensures HexValue(s) == PairValue(s[0], s[1])
  {
    var t := s[..1];
    assert t == [s[0]] && t[..0] == [];
    assert HexValue(t) == DigitValue(s[0]);
  }

  /**
   * On `#` followed by six hexadecimal digits the channels come from the digit pairs 1-2,
   * 3-4 and 5-6 and lie in 0..255. The first character is never inspected.
   */
  lemma {:induction false} HexToRgbOnSixDigits(hex: string)
    requires |hex| == 7 && AllHexDigits(hex[1..])
    ensures IsHexDigit(hex[1]) && IsHexDigit(hex[2]) && IsHexDigit(hex[3])
    ensures IsHexDigit(hex[4]) && IsHexDigit(hex[5]) && IsHexDigit(hex[6])
    ensures HexToRgb(hex) == [Num(PairValue(hex[1], hex[2])), Num(PairValue(hex[3], hex[4])),
                              Num(PairValue(hex[5], hex[6]))]
  {
    assert IsHexDigit(hex[1..][0]) && IsHexDigit(hex[1..][1]) && IsHexDigit(hex[1..][2]);
    assert IsHexDigit(hex[1..][3]) && IsHexDigit(hex[1..][4]) && IsHexDigit(hex[1..][5]);
    HexToRgbOfDigits(hex);
  }

  /** The same on the six digits stated one by one. */
  lemma HexToRgbOfDigits(hex: string)
    requires |hex| == 7 && IsHexDigit(hex[1]) && IsHexDigit(hex[2]) && IsHexDigit(hex[3])
    requires IsHexDigit(hex[4]) && IsHexDigit(hex[5]) && IsHexDigit(hex[6])
    ensures HexToRgb(hex) == [Num(PairValue(hex[1], hex[2])), Num(PairValue(hex[3], hex[4])),
                              Num(PairValue(hex[5], hex[6]))]
  {
    ParsePairAt(hex, 1);
    ParsePairAt(hex, 3);
    ParsePairAt(hex, 5);
  }

  /** The two-character slice at k of two hexadecimal digits parses to their byte. */
  lemma ParsePairAt(hex: string, k: nat)
    requires k + 2 <= |hex| && IsHexDigit(hex[k]) && IsHexDigit(hex[k + 1])
    ensures ParseIntHex(Slice(hex, k, k + 2)) == Num(PairValue(hex[k], hex[k + 1]))
  {
    var t := Slice(hex, k, k + 2);
    assert t == [hex[k], hex[k + 1]];
    ParsePair(t);
  }

  /** Parsing the `#rrggbb` spelling of a colour gives the colour back. */
  lemma HexToRgbRoundTrip(c: Rgb)
    ensures HexToRgb(ToHex(c)) == [Num(c.r), Num(c.g), Num(c.b)]
  {
    var s := ToHex(c);
    assert s[1..3] == Hex2(c.r) && s[3..5] == Hex2(c.g) && s[5..7] == Hex2(c.b);
    HexToRgbOnSixDigits(s);
  }

  /** One hexadecimal digit on its own parses to its value. */
  lemma ParseDigit(s: string)
    requires |s| == 1 && IsHexDigit(s[0])
    ensures ParseIntHex(s) == Num(DigitValue(s[0]))
  {
    PlainDigits(s);
    assert HexPrefixLength(s) == 1 by { assert HexPrefixLength(s[1..]) == 0; }
    assert s[..1] == s;
    assert HexValue(s) == DigitValue(s[0]) by { assert s[..0] == []; }
  }

  /**
   * Without the leading `#` the slices are off by one: six digits `d0…d5` read as
   * (d1d2, d3d4, d5), so "ff0000" gives (0xf0, 0x00, 0x0).
   */
  lemma HexToRgbWithoutHash(s: string)
    requires |s| == 6 && AllHexDigits(s)
    ensures HexToRgb(s) == [Num(PairValue(s[1], s[2])), Num(PairValue(s[3], s[4])), Num(DigitValue(s[5]))]
  {
    assert IsHexDigit(s[1]) && IsHexDigit(s[2]) && IsHexDigit(s[3]) && IsHexDigit(s[4]) && IsHexDigit(s[5]);
    HexToRgbOfShiftedDigits(s);
  }

  /** The same on the five digits that are read, stated one by one. */
  lemma HexToRgbOfShiftedDigits(s: string)
    requires |s| == 6 && IsHexDigit(s[1]) && IsHexDigit(s[2]) && IsHexDigit(s[3]) && IsHexDigit(s[4]) && IsHexDigit(s[5])
    ensures HexToRgb(s) == [Num(PairValue(s[1], s[2])), Num(PairValue(s[3], s[4])), Num(DigitValue(s[5]))]
  {
    ParsePairAt(s, 1);
    ParsePairAt(s, 3);
    ParseDigitAt(s, 5);
  }

  /** The slice at the last character, a hexadecimal digit, parses to its value. */
  lemma ParseDigitAt(s: string, k: nat)
    requires k + 1 == |s| && IsHexDigit(s[k])
    ensures ParseIntHex(Slice(s, k, k + 2)) == Num(DigitValue(s[k]))
  {
    var t := Slice(s, k, k + 2);
    assert t == [s[k]];
    ParseDigit(t);
  }

  /** A string shorter than six characters leaves the blue slice empty, and blue is NaN. */
  lemma HexToRgbShortInput(s: string)
    requires |s| <= 5
    ensures HexToRgb(s)[2] == NaN
  {
    assert Slice(s, 5, 7) == [];
    assert TrimStart([]) == [];
  }

  /** A slice starting with a character that is not white space, a sign or a digit is NaN. */
  lemma NonDigitIsNaN(s: string)
    requires |s| > 0 && !IsJsWhiteSpace(s[0]) && !IsHexDigit(s[0]) && s[0] != '-' && s[0] != '+'
    ensures ParseIntHex(s) == NaN
  {
    assert TrimStart(s) == s;
  }
}
