/**
 * The `hexToRgb` of static/main.js: the pattern `^#?([a-f\d]{2})([a-f\d]{2})([a-f\d]{2})$`
 * with the `i` flag, each group parsed as hexadecimal, and black when the pattern fails.
 */
module RegexHex {
  import opened Types
  import opened Color

  const Black := Rgb(0, 0, 0)

  /**
   * The strings the pattern matches: an optional `#`, then exactly six hexadecimal digits
   * in either case (with `i`, `[a-f]` also takes `A-F`; `\d` is `0-9`; `$` is the end).
   */
  predicate MatchesHexPattern(s: string)
  {
    (|s| == 7 && s[0] == '#' && AllHexDigits(s[1..])) || (|s| == 6 && AllHexDigits(s))
  }

  /** The digits after an optional leading `#`. */
  function DropHash(s: string): (d: string)
    ensures (|s| > 0 && s[0] == '#') ==> d == s[1..]
    ensures !(|s| > 0 && s[0] == '#') ==> d == s
  {
    if |s| > 0 && s[0] == '#' then s[1..] else s
  }

  /**
   * hexToRgb of static/main.js. On a match the channels come from the three digit pairs;
   * otherwise the result is black. Channels are bytes by their type.
   */
  function HexToRgb(hex: string): (c: Rgb)
    ensures MatchesHexPattern(hex) ==>
      var d := DropHash(hex);
      |d| == 6 && AllHexDigits(d) &&
      c == Rgb(PairValue(d[0], d[1]), PairValue(d[2], d[3]), PairValue(d[4], d[5]))
    ensures !MatchesHexPattern(hex) ==> c == Black
  {
    var d := DropHash(hex);
    if |d| == 6 && AllHexDigits(d) then
      assert IsHexDigit(d[0]) && IsHexDigit(d[1]) && IsHexDigit(d[2]);
      assert IsHexDigit(d[3]) && IsHexDigit(d[4]) && IsHexDigit(d[5]);
      Rgb(PairValue(d[0], d[1]), PairValue(d[2], d[3]), PairValue(d[4], d[5]))
    else
      Black
  }

  /** Parsing `#rrggbb` gives the colour back, and so does the spelling without `#`. */
  lemma {:induction false} HexToRgbRoundTrip(c: Rgb)
    ensures HexToRgb(ToHex(c)) == c
    ensures HexToRgb(ToHex(c)[1..]) == c
  {
    var s := ToHex(c);
    assert s[1..][0..2] == Hex2(c.r) && s[1..][2..4] == Hex2(c.g) && s[1..][4..6] == Hex2(c.b);
    assert MatchesHexPattern(s);
    assert DropHash(s) == s[1..];
    var d := s[1..];
    assert IsHexDigit(d[0]);
    assert MatchesHexPattern(d);
    assert DropHash(d) == d;
  }

  /** Upper-case digits are read like lower-case ones. */
  lemma {:induction false} CaseInsensitive(hex: string, i: nat)
    requires MatchesHexPattern(hex) && i < |hex| && 'a' <= hex[i] <= 'f'
    ensures MatchesHexPattern(hex[i := (hex[i] as int - 32) as char])
    ensures HexToRgb(hex[i := (hex[i] as int - 32) as char]) == HexToRgb(hex)
  {
    var up := hex[i := (hex[i] as int - 32) as char];
    assert DigitValue(up[i]) == DigitValue(hex[i]);
    if |hex| == 7 {
      assert i > 0;
      assert forall k :: 0 <= k < 6 ==> up[1..][k] == (if k == i - 1 then up[i] else hex[1..][k]);
      assert DropHash(up) == up[1..];
    } else {
      assert up[0] != '#';
      assert forall k :: 0 <= k < 6 ==> up[k] == (if k == i then up[i] else hex[k]);
    }
  }

  /** Anything else is black: a three-digit short form, two `#`, or an empty string. */
  lemma RejectsOtherShapes(s: string)
    requires |s| != 6 && |s| != 7
    ensures HexToRgb(s) == Black
  {
  }

  lemma RejectsNonDigit(s: string, i: nat)
    requires 0 < i < |s| && !IsHexDigit(s[i])
    ensures HexToRgb(s) == Black
  {
    if |s| == 7 && s[0] == '#' {
      assert s[1..][i - 1] == s[i];
    }
  }
}
