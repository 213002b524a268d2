/** `cmd/utils/utils_color.go`: the glyph ramp, luminance, the lightness curve's
    linear branch and the `#RGB` / `#RRGGBB` parser of CSS Color Module Level 4,
    section 5.2 (without the alpha forms). */
module ColorUtils {
  import opened GoNumeric
  import opened Pixels

  /** `asciiMap`: ten glyphs from darkest to brightest. */
  const AsciiMap: seq<char> := [' ', '.', '>', '+', 'o', 'P', '0', '?', '#', '@']

  /** BT.709 luma over the 16-bit channels of a colour. */
  function GetLuminance(c: Color): (lum: real)
    ensures 0.0 <= lum <= 65535.0
    ensures c.r == c.g == c.b ==> lum == c.r as real
  {
    0.2126 * c.r as real + 0.7152 * c.g as real + 0.0722 * c.b as real
  }

  /** Luminance never decreases when no channel decreases. */
  lemma LuminanceMonotone(c: Color, d: Color)
    requires c.r <= d.r && c.g <= d.g && c.b <= d.b
    ensures GetLuminance(c) <= GetLuminance(d)
  {
  }

  /** `uint(lum / 65535 * (len(asciiMap) - 1))`. */
  function GlyphIndex(lum: real): (i: nat)
    requires 0.0 <= lum <= 65535.0
    ensures i < |AsciiMap|
    ensures i == 9 <==> lum == 65535.0
  {
    Trunc(lum / 65535.0 * 9.0)
  }

  lemma GlyphIndexMonotone(lum1: real, lum2: real)
    requires 0.0 <= lum1 <= lum2 <= 65535.0
    ensures GlyphIndex(lum1) <= GlyphIndex(lum2)
  {
    TruncMonotone(lum1 / 65535.0 * 9.0, lum2 / 65535.0 * 9.0);
  }

  function GetLuminanceCharacter(c: Color): (ch: char)
    ensures ch in AsciiMap
    ensures c.r == 0 && c.g == 0 && c.b == 0 ==> ch == ' '
    ensures c.r == 65535 && c.g == 65535 && c.b == 65535 ==> ch == '@'
  {
    AsciiMap[GlyphIndex(GetLuminance(c))]
  }

  /** A brighter colour never gets a glyph earlier in the ramp. */
  lemma LuminanceCharacterMonotone(c: Color, d: Color)
    requires GetLuminance(c) <= GetLuminance(d)
    ensures GlyphIndex(GetLuminance(c)) <= GlyphIndex(GetLuminance(d))
  {
    GlyphIndexMonotone(GetLuminance(c), GetLuminance(d));
  }

  /** The CIE knee 216/24389 = (6/29)^3. */
  const Knee: real := 216.0 / 24389.0

  /** L* from a relative luminance; `cubeRoot` stands for `math.Pow(lum, 1.0/3.0)`. */
  function LuminanceToBrightness(lum: real, cubeRoot: real): (l: real)
    ensures 0.0 <= lum <= Knee ==> 0.0 <= l <= 8.0 && l == lum * (24389.0 / 27.0)
  {
    if lum <= Knee then lum * (24389.0 / 27.0) else cubeRoot * 116.0 - 16.0
  }

  /** Given an exact cube root, the curve lies at or below 8 exactly on the linear branch:
      the two branches meet at the knee. */
  lemma {:induction false} BrightnessBranchesMeet(lum: real, cubeRoot: real)
    requires 0.0 <= lum && 0.0 <= cubeRoot && cubeRoot * cubeRoot * cubeRoot == lum
    ensures LuminanceToBrightness(lum, cubeRoot) <= 8.0 <==> lum <= Knee
  {
    if lum > Knee {
      var k := 6.0 / 29.0;
      assert k * k * k == Knee;
      if cubeRoot <= k {
        CubeMonotone(cubeRoot, k);
        assert false;
      }
    }
  }

  lemma CubeMonotone(a: real, b: real)
    requires 0.0 <= a <= b
    ensures a * a * a <= b * b * b
  {
    ScaleLe(a, b, a);
    assert a * a <= b * a;
    ScaleLe(a, b, b);
    assert a * b <= b * b;
    assert b * a == a * b;
    assert a * a <= b * b;
    ScaleLe(a * a, b * b, a);
    ScaleLe(a, b, b * b);
  }

  lemma ScaleLe(a: real, b: real, c: real)
    requires a <= b && 0.0 <= c
    ensures a * c <= b * c
  {
  }

  // ---------------------------------------------------------------- hex parsing

  const HASH: Byte := 35

  predicate IsDecimalDigit(b: Byte) { 48 <= b <= 57 }
  predicate IsLowerHex(b: Byte) { 97 <= b <= 102 }
  predicate IsUpperHex(b: Byte) { 65 <= b <= 70 }
  predicate IsHexDigit(b: Byte) { IsDecimalDigit(b) || IsLowerHex(b) || IsUpperHex(b) }

  /** The result of the `hexToByte` closure: a digit value, and whether the
      closure left `err` untouched. */
  datatype Digit = Digit(value: Byte, ok: bool)

  function HexToByte(b: Byte): (d: Digit)
    ensures d.ok <==> IsHexDigit(b)
    ensures d.value < 16
    ensures !d.ok ==> d.value == 0
  {
    if IsDecimalDigit(b) then Digit(b - 48, true)
    else if IsLowerHex(b) then Digit(b - 97 + 10, true)
    else if IsUpperHex(b) then Digit(b - 65 + 10, true)
    else Digit(0, false)
  }

  /** Upper- and lower-case letter digits decode identically. */
  lemma HexDigitCaseInsensitive(b: Byte)
    requires IsUpperHex(b)
    ensures HexToByte(b) == HexToByte(b + 32)
  {
  }

  /** The named results of `ParseHexColorFast`: a `color.RGBA` and whether
      `err` is `errInvalidFormat` (the only error it returns). */
  datatype Parsed = Parsed(r: Byte, g: Byte, b: Byte, a: Byte, err: bool)

  /** `hi << 4 + lo` for two digits. */
  function Pair(hi: Byte, lo: Byte): (d: Digit)
    ensures d.ok <==> IsHexDigit(hi) && IsHexDigit(lo)
    ensures d.value == 16 * HexToByte(hi).value + HexToByte(lo).value
  {
    var h := HexToByte(hi);
    var l := HexToByte(lo);
    Digit(h.value * 16 + l.value, h.ok && l.ok)
  }

  /** `digit * 17`. */
  function Single(b: Byte): (d: Digit)
    ensures d.ok <==> IsHexDigit(b)
    ensures d.value == 17 * HexToByte(b).value
  {
    var h := HexToByte(b);
    Digit(h.value * 17, h.ok)
  }

  /** Every digit after the `#` is a hex digit. */
  predicate AllHex(s: seq<Byte>) {
    forall i :: 1 <= i < |s| ==> IsHexDigit(s[i])
  }

  function ParseHexColorFast(s: seq<Byte>): (p: Parsed)
    requires |s| >= 1
    ensures p.a == 255
    ensures s[0] != HASH ==> p == Parsed(0, 0, 0, 255, true)
    ensures !p.err <==> s[0] == HASH && (|s| == 7 || |s| == 4) && AllHex(s)
    ensures s[0] == HASH && |s| == 7 ==>
      p.r == 16 * HexToByte(s[1]).value + HexToByte(s[2]).value &&
      p.g == 16 * HexToByte(s[3]).value + HexToByte(s[4]).value &&
      p.b == 16 * HexToByte(s[5]).value + HexToByte(s[6]).value
    ensures s[0] == HASH && |s| == 4 ==>
      p.r == 17 * HexToByte(s[1]).value &&
      p.g == 17 * HexToByte(s[2]).value &&
      p.b == 17 * HexToByte(s[3]).value
    ensures s[0] == HASH && |s| != 7 && |s| != 4 ==> p == Parsed(0, 0, 0, 255, true)
  {
    if s[0] != HASH then Parsed(0, 0, 0, 255, true)
    else if |s| == 7 then
      var r, g, b := Pair(s[1], s[2]), Pair(s[3], s[4]), Pair(s[5], s[6]);
      Parsed(r.value, g.value, b.value, 255, !(r.ok && g.ok && b.ok))
    else if |s| == 4 then
      var r, g, b := Single(s[1]), Single(s[2]), Single(s[3]);
      Parsed(r.value, g.value, b.value, 255, !(r.ok && g.ok && b.ok))
    else Parsed(0, 0, 0, 255, true)
  }

  // ---------------------------------------------------------------- formatting

  /** A lower-case hex digit for a value below 16. */
  function HexChar(v: int): (b: Byte)
    requires 0 <= v < 16
    ensures IsHexDigit(b) && HexToByte(b).value == v
  {
    if v < 10 then 48 + v else 97 + v - 10
  }

  /** `fmt.Sprintf("#%02x%02x%02x", r, g, b)`. */
  function FormatHex(r: Byte, g: Byte, b: Byte): (s: seq<Byte>)
    ensures |s| == 7 && s[0] == HASH && AllHex(s)
  {
    [HASH, HexChar(r / 16), HexChar(r % 16), HexChar(g / 16), HexChar(g % 16),
     HexChar(b / 16), HexChar(b % 16)]
  }

  /** Formatting a triple as `#rrggbb` and parsing it gives the triple back. */
  lemma FormatParseRoundTrip(r: Byte, g: Byte, b: Byte)
    ensures ParseHexColorFast(FormatHex(r, g, b)) == Parsed(r, g, b, 255, false)
  {
  }

  /** The short form `#rgb` parses like the long form `#rrggbb`, digit errors included. */
  lemma {:induction false} ShortFormIsDoubledLongForm(s: seq<Byte>)
    requires |s| == 4 && s[0] == HASH
    ensures ParseHexColorFast(s) == ParseHexColorFast([HASH, s[1], s[1], s[2], s[2], s[3], s[3]])
  {
    var t := [HASH, s[1], s[1], s[2], s[2], s[3], s[3]];
    assert AllHex(s) <==> AllHex(t) by {
      if AllHex(t) {
        assert IsHexDigit(t[1]) && IsHexDigit(t[3]) && IsHexDigit(t[5]);
      }
    }
  }
}
