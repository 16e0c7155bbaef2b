/** The contrast checker of the styles test app: parsing a `#rrggbb` colour
    and the WCAG pass/fail flags of a contrast ratio. The relative-luminance
    formula is floating-point work and stays outside the model; each colour's
    luminance comes in as a non-negative real, and the ratio and its rounding
    are computed on exact reals. */
module Contrast {
  import opened Wrappers
  import Text

  datatype Rgb = Rgb(r: int, g: int, b: int)

  /** `[a-f\d]` under the `i` flag. */
  predicate IsHexDigit(c: char) {
    '0' <= c <= '9' || 'a' <= c <= 'f' || 'A' <= c <= 'F'
  }

  predicate AllHex(d: string) {
    forall i :: 0 <= i < |d| ==> IsHexDigit(d[i])
  }

  function HexValue(c: char): (v: int)
    requires IsHexDigit(c)
    ensures 0 <= v < 16
  {
    if '0' <= c <= '9' then c as int - '0' as int
    else if 'a' <= c <= 'f' then c as int - 'a' as int + 10
    else c as int - 'A' as int + 10
  }

  /** `parseInt(pair, 16)` of a captured pair of digits. */
  function PairValue(hi: char, lo: char): (v: int)
    requires IsHexDigit(hi) && IsHexDigit(lo)
    ensures 0 <= v <= 255
  {
    16 * HexValue(hi) + HexValue(lo)
  }

  /** The six digits `^#?([a-f\d]{2})([a-f\d]{2})([a-f\d]{2})$` captures,
      when it matches: an optional leading '#' and then exactly six hex
      digits up to the end of the input. */
  function Digits(hex: string): Option<string> {
    var d := if |hex| > 0 && hex[0] == '#' then hex[1..] else hex;
    if |d| == 6 && AllHex(d) then Some(d) else None
  }

  /** The three captured components, when the pattern matches. */
  function ParseHex(hex: string): (c: Option<Rgb>)
    ensures c.Some? ==> 0 <= c.value.r <= 255 && 0 <= c.value.g <= 255 && 0 <= c.value.b <= 255
  {
    match Digits(hex)
    case None => None
    case Some(d) => Some(Rgb(PairValue(d[0], d[1]), PairValue(d[2], d[3]), PairValue(d[4], d[5])))
  }

  /** `hexToRgb(hex)`: the parsed colour, or black for anything else. */
  function HexToRgb(hex: string): (c: Rgb)
    ensures 0 <= c.r <= 255 && 0 <= c.g <= 255 && 0 <= c.b <= 255
    ensures ParseHex(hex).None? ==> c == Rgb(0, 0, 0)
  {
    ParseHex(hex).GetOr(Rgb(0, 0, 0))
  }

  /** The strings the pattern accepts, described by their shape. */
  predicate IsHexColour(hex: string) {
    || (|hex| == 6 && AllHex(hex))
    || (|hex| == 7 && hex[0] == '#' && AllHex(hex[1..]))
  }

  /** The pattern matches exactly six hex digits, with or without a leading
      '#'. */
  lemma AcceptedShapes(hex: string)
    ensures ParseHex(hex).Some? <==> IsHexColour(hex)
  {
    if |hex| > 0 && hex[0] == '#' {
      assert !IsHexDigit(hex[0]);
    }
  }

  /** Any other input, the three-digit shorthand among them, reads as
      black. */
  lemma OthersAreBlack(hex: string)
    ensures !IsHexColour(hex) ==> HexToRgb(hex) == Rgb(0, 0, 0)
    ensures |hex| != 6 && |hex| != 7 ==> HexToRgb(hex) == Rgb(0, 0, 0)
  {
    AcceptedShapes(hex);
  }

  /** The digit `0123456789abcdef`[k]. */
  function Digit(k: int): (c: char)
    requires 0 <= k < 16
    ensures IsHexDigit(c) && HexValue(c) == k
  {
    if k < 10 then ('0' as int + k) as char else ('a' as int + k - 10) as char
  }

  /** A component as two lower-case hex digits. */
  function Pair(n: int): (p: string)
    requires 0 <= n <= 255
    ensures |p| == 2 && AllHex(p) && PairValue(p[0], p[1]) == n
  {
    [Digit(n / 16), Digit(n % 16)]
  }

  /** `#rrggbb`, the form a colour input reports. */
  function ToHex(c: Rgb): (hex: string)
    requires 0 <= c.r <= 255 && 0 <= c.g <= 255 && 0 <= c.b <= 255
    ensures |hex| == 7 && hex[0] == '#'
  {
    "#" + Pair(c.r) + Pair(c.g) + Pair(c.b)
  }

  /** Parsing undoes formatting: every colour in range survives the trip. */
  lemma ParseToHex(c: Rgb)
    requires 0 <= c.r <= 255 && 0 <= c.g <= 255 && 0 <= c.b <= 255
    ensures ParseHex(ToHex(c)) == Some(c)
    ensures IsHexColour(ToHex(c))
  {
    var hex := ToHex(c);
    var d := Pair(c.r) + Pair(c.g) + Pair(c.b);
    assert hex[1..] == d;
    assert d[0] == Pair(c.r)[0] && d[1] == Pair(c.r)[1];
    assert d[2] == Pair(c.g)[0] && d[3] == Pair(c.g)[1];
    assert d[4] == Pair(c.b)[0] && d[5] == Pair(c.b)[1];
  }

  lemma LowerHexDigit(c: char)
    ensures IsHexDigit(Text.LowerChar(c)) <==> IsHexDigit(c)
    ensures IsHexDigit(c) ==> HexValue(Text.LowerChar(c)) == HexValue(c)
  {
  }

  lemma UpperHexDigit(c: char)
    ensures IsHexDigit(Text.UpperChar(c)) <==> IsHexDigit(c)
    ensures IsHexDigit(c) ==> HexValue(Text.UpperChar(c)) == HexValue(c)
  {
  }

  /** The `i` flag: the case of the digits does not matter. */
  lemma CaseInsensitive(hex: string)
    ensures ParseHex(Text.Lower(hex)) == ParseHex(hex)
    ensures ParseHex(Text.Upper(hex)) == ParseHex(hex)
  {
    var lo, up := Text.Lower(hex), Text.Upper(hex);
    forall i | 0 <= i < |hex|
      ensures SameChar(lo[i], hex[i]) && SameChar(up[i], hex[i])
    {
      LowerHexDigit(hex[i]);
      UpperHexDigit(hex[i]);
    }
    SameReading(hex, lo);
    SameReading(hex, up);
  }

  /** Two characters the pattern and `parseInt` cannot tell apart. */
  predicate SameChar(c: char, c': char) {
    && (c == '#' <==> c' == '#')
    && (IsHexDigit(c) <==> IsHexDigit(c'))
    && (IsHexDigit(c) && IsHexDigit(c') ==> HexValue(c) == HexValue(c'))
  }

  lemma SameReading(hex: string, t: string)
    requires |t| == |hex|
    requires forall i :: 0 <= i < |hex| ==> SameChar(t[i], hex[i])
    ensures ParseHex(t) == ParseHex(hex)
  {
    if |hex| > 0 && hex[0] == '#' {
      SameDigits(hex[1..], t[1..]);
    } else {
      SameDigits(hex, t);
    }
  }

  lemma SameDigits(d: string, e: string)
    requires |e| == |d|
    requires forall i :: 0 <= i < |d| ==> SameChar(e[i], d[i])
    ensures AllHex(e) <==> AllHex(d)
    ensures |d| == 6 && AllHex(d) ==>
      PairValue(e[0], e[1]) == PairValue(d[0], d[1])
      && PairValue(e[2], e[3]) == PairValue(d[2], d[3])
      && PairValue(e[4], e[5]) == PairValue(d[4], d[5])
  {
  }

  /** A `#rrggbb` string reads pair by pair. */
  lemma ParseHashed(hex: string)
    requires |hex| == 7 && hex[0] == '#' && AllHex(hex[1..])
    ensures ParseHex(hex) == Some(Rgb(PairValue(hex[1], hex[2]), PairValue(hex[3], hex[4]), PairValue(hex[5], hex[6])))
  {
    assert Digits(hex) == Some(hex[1..]);
  }

  /** The checker's starting colours: black on white. */
  lemma StartingColours()
    ensures HexToRgb("#000000") == Rgb(0, 0, 0)
    ensures HexToRgb("#FFFFFF") == Rgb(255, 255, 255)
  {
    ParseHashed("#000000");
    ParseHashed("#FFFFFF");
  }

  /** The brand green preset, written in upper case. */
  lemma BrandGreen()
    ensures HexToRgb("#00B194") == Rgb(0, 177, 148)
  {
    ParseHashed("#00B194");
  }

  function Max(a: real, b: real): real {
    if a > b then a else b
  }

  function Min(a: real, b: real): real {
    if a < b then a else b
  }

  /** `getContrastRatio` on the two luminances: the lighter over the
      darker, each offset by 0.05. */
  function ContrastRatio(l1: real, l2: real): (ratio: real)
    requires 0.0 <= l1 && 0.0 <= l2
  {
    (Max(l1, l2) + 0.05) / (Min(l1, l2) + 0.05)
  }

  /** The ratio does not depend on the order of the colours, is at least 1,
      and is 1 exactly for equal luminances. */
  lemma RatioProperties(l1: real, l2: real)
    requires 0.0 <= l1 && 0.0 <= l2
    ensures ContrastRatio(l1, l2) == ContrastRatio(l2, l1)
    ensures ContrastRatio(l1, l2) >= 1.0
    ensures ContrastRatio(l1, l2) == 1.0 <==> l1 == l2
  {
    var hi, lo := Max(l1, l2) + 0.05, Min(l1, l2) + 0.05;
    assert ContrastRatio(l1, l2) * lo == hi;
    assert hi >= lo > 0.0;
  }

  datatype ContrastResult = ContrastResult(ratio: real, aa: bool, aaa: bool, aaLarge: bool, aaaLarge: bool)

  /** `Math.round(x * 100) / 100`: `Math.round` rounds halves upwards. */
  function Round2(x: real): real {
    (x * 100.0 + 0.5).Floor as real / 100.0
  }

  /** The displayed ratio is within half a hundredth of the exact one. */
  lemma RoundedClose(x: real)
    ensures -0.005 < Round2(x) - x <= 0.005
  {
    var f := (x * 100.0 + 0.5).Floor as real;
    assert f <= x * 100.0 + 0.5 < f + 1.0;
  }

  /** `checkContrast` once the ratio is known: the rounded ratio and the
      four thresholds, taken on the exact ratio. */
  function Check(ratio: real): (res: ContrastResult)
    ensures res.aa <==> ratio >= 4.5
    ensures res.aaa <==> ratio >= 7.0
    ensures res.aaLarge <==> ratio >= 3.0
    ensures res.aaaLarge <==> res.aa
    ensures res.aaa ==> res.aa && (res.aa ==> res.aaLarge)
  {
    ContrastResult(Round2(ratio), ratio >= 4.5, ratio >= 7.0, ratio >= 3.0, ratio >= 4.5)
  }

  /** The flags come from the exact ratio, not the displayed one: a ratio
      just under 4.5 shows as 4.5 and still fails AA. */
  lemma RoundedDisplayFailsAa()
    ensures Check(4.499).ratio == 4.5 && !Check(4.499).aa
  {
    assert (4.499 * 100.0 + 0.5).Floor == 450;
  }

  /** `checkContrast(hex1, hex2)`, with the luminance of a colour given by
      `luminance`. */
  function CheckColours(hex1: string, hex2: string, luminance: Rgb -> real): ContrastResult
    requires luminance(HexToRgb(hex1)) >= 0.0 && luminance(HexToRgb(hex2)) >= 0.0
  {
    Check(ContrastRatio(luminance(HexToRgb(hex1)), luminance(HexToRgb(hex2))))
  }

  /** Swapping foreground and background changes no result. */
  lemma CheckColoursSymmetric(hex1: string, hex2: string, luminance: Rgb -> real)
    requires luminance(HexToRgb(hex1)) >= 0.0 && luminance(HexToRgb(hex2)) >= 0.0
    ensures CheckColours(hex1, hex2, luminance) == CheckColours(hex2, hex1, luminance)
  {
    RatioProperties(luminance(HexToRgb(hex1)), luminance(HexToRgb(hex2)));
  }

  /** Luminances 0 (black) and 1 (white) give the WCAG maximum 21, which
      passes every level. */
  lemma BlackOnWhite()
    ensures ContrastRatio(0.0, 1.0) == 21.0
    ensures var res := Check(ContrastRatio(0.0, 1.0));
            res.ratio == 21.0 && res.aa && res.aaa && res.aaLarge && res.aaaLarge
  {
    assert (21.0 * 100.0 + 0.5).Floor == 2100;
  }
}
