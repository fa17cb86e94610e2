/** Colour primitives: the tolerance comparison and hexadecimal digits. */
module Color {
  import opened Types

  /** An RGB colour with 8-bit channels. */
  datatype Rgb = Rgb(r: Byte, g: Byte, b: Byte)

  /** The tolerance every caller of isSimilarColor uses (the parameter's default). */
  const DefaultTolerance: int := 10

  /** isSimilarColor: every channel differs by at most `tolerance`; alpha is not an argument. */
  predicate IsSimilarColor(a: Rgb, b: Rgb, tolerance: int)
  {
    Abs(a.r - b.r) <= tolerance &&
    Abs(a.g - b.g) <= tolerance &&
    Abs(a.b - b.b) <= tolerance
  }

  lemma SimilarIsSymmetric(a: Rgb, b: Rgb, tolerance: int)
    ensures IsSimilarColor(a, b, tolerance) == IsSimilarColor(b, a, tolerance)
  {
  }

  lemma SimilarIsReflexive(a: Rgb, tolerance: int)
    requires tolerance >= 0
    ensures IsSimilarColor(a, a, tolerance)
  {
  }

  /** The comparison is not transitive: two steps of 10 make a difference of 20. */
  lemma SimilarIsNotTransitive()
    ensures IsSimilarColor(Rgb(0, 0, 0), Rgb(10, 0, 0), DefaultTolerance)
    ensures IsSimilarColor(Rgb(10, 0, 0), Rgb(20, 0, 0), DefaultTolerance)
    ensures !IsSimilarColor(Rgb(0, 0, 0), Rgb(20, 0, 0), DefaultTolerance)
  {
  }

  // ---------------------------------------------------------------- hex digits

  /** A character of the class `[0-9a-fA-F]`. */
  predicate IsHexDigit(c: char)
  {
    ('0' <= c <= '9') || ('a' <= c <= 'f') || ('A' <= c <= 'F')
  }

  function DigitValue(c: char): (v: int)
    requires IsHexDigit(c)
    ensures 0 <= v < 16
  {
    if '0' <= c <= '9' then c as int - '0' as int
    else if 'a' <= c <= 'f' then c as int - 'a' as int + 10
    else c as int - 'A' as int + 10
  }

  predicate AllHexDigits(s: string)
  {
    forall i :: 0 <= i < |s| ==> IsHexDigit(s[i])
  }

  /** The value of two hexadecimal digits, high digit first. */
  function PairValue(hi: char, lo: char): (v: Byte)
    requires IsHexDigit(hi) && IsHexDigit(lo)
  {
    DigitValue(hi) * 16 + DigitValue(lo)
  }

  /** The lower-case digit for a value below 16. */
  function HexDigit(n: int): (c: char)
    requires 0 <= n < 16
    ensures IsHexDigit(c) && DigitValue(c) == n
  {
    if n < 10 then (n + '0' as int) as char else (n - 10 + 'a' as int) as char
  }

  /** Two lower-case hexadecimal digits of a byte, as in `#rrggbb`. */
  function Hex2(v: Byte): (s: string)
    ensures |s| == 2 && AllHexDigits(s) && PairValue(s[0], s[1]) == v
  {
    [HexDigit(v / 16), HexDigit(v % 16)]
  }

  /** The `#rrggbb` spelling of a colour that a colour input produces. */
  function ToHex(c: Rgb): (s: string)
    ensures |s| == 7 && s[0] == '#' && AllHexDigits(s[1..])
  {
    "#" + Hex2(c.r) + Hex2(c.g) + Hex2(c.b)
  }
}
