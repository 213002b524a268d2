/** The colour post-processing of `cmd/utils/utils_postprocessing.go`:
    brightness palettes, highlight extraction, blending, tinting, bloom and
    colour burn. Every image operation allocates a canvas of the input's
    bounds and writes each pixel once, as `color.RGBA` bytes. */
module PostProcessing {
  import opened GoNumeric
  import opened Grids
  import opened Pixels
  import opened ColorUtils
  import opened Kernels
  import opened GaussianBlur

  // ------------------------------------------------------------- palette

  /** `float64(i) / float64(shades-1)`, which lies in `[0, 1]`. */
  function Factor(i: nat, shades: int): (f: real)
    requires shades >= 2 && i < shades
    ensures 0.0 <= f <= 1.0
  {
    QuotientBetween(i as real, (shades - 1) as real, 0.0, 1.0);
    i as real / (shades - 1) as real
  }

  lemma FactorMonotone(i: nat, j: nat, shades: int)
    requires shades >= 2 && i <= j < shades
    ensures Factor(i, shades) <= Factor(j, shades)
  {
    var n := (shades - 1) as real;
    QuotientBetween(i as real, n, i as real / n, i as real / n);
    ScaleLe(i as real, j as real, 1.0 / n);
    assert i as real / n == i as real * (1.0 / n);
    assert j as real / n == j as real * (1.0 / n);
  }

  /** `s * x` for a factor `s` in `[0, 1]`: it lies between 0 and `x`. */
  function Scaled(s: real, x: real): (p: real)
    requires 0.0 <= s <= 1.0 && 0.0 <= x
    ensures 0.0 <= p <= x
  {
    assert (1.0 - s) * x == x - s * x;
    s * x
  }

  /** A larger factor scales to a larger value. */
  lemma ScaledMonotone(s: real, t: real, x: real)
    requires 0.0 <= s <= t <= 1.0 && 0.0 <= x
    ensures Scaled(s, x) <= Scaled(t, x)
  {
    assert (t - s) * x == t * x - s * x;
  }

  /** `uint8(float64(v) * factor)`. */
  function Shade(v: Byte, i: nat, shades: int): (s: Byte)
    requires shades >= 2 && i < shades
    ensures s <= v
  {
    ToByte(Scaled(Factor(i, shades), v as real))
  }

  /** Entry `i` of `GenerateBrightnessPalette(base, shades)`. */
  function PaletteEntry(base: Color, shades: int, i: nat): Color
    requires shades >= 2 && i < shades
  {
    Rgba(Shade(Hi(base.r), i, shades), Shade(Hi(base.g), i, shades), Shade(Hi(base.b), i, shades), 255)
  }

  /** `GenerateBrightnessPalette`: shades from black up to the base colour.
      One shade would divide zero by zero, so the shade count is 0 or at least 2. */
  method GenerateBrightnessPalette(base: Color, shades: int) returns (palette: seq<Color>)
    requires shades == 0 || shades >= 2
    ensures |palette| == shades
    ensures forall i :: 0 <= i < shades ==> palette[i] == PaletteEntry(base, shades, i) && palette[i].a == 65535
    ensures shades >= 2 ==> palette[0] == Rgba(0, 0, 0, 255)
    ensures shades >= 2 ==> palette[shades - 1] == Rgba(Hi(base.r), Hi(base.g), Hi(base.b), 255)
  {
    var a := new Color[shades];
    for i := 0 to shades
      invariant forall j :: 0 <= j < i ==> a[j] == PaletteEntry(base, shades, j)
    {
      a[i] := PaletteEntry(base, shades, i);
    }
    palette := a[..];
    if shades >= 2 {
      PaletteEnds(base, shades);
    }
  }

  /** The first shade is black and the last is the base colour's bytes. */
  lemma PaletteEnds(base: Color, shades: int)
    requires shades >= 2
    ensures PaletteEntry(base, shades, 0) == Rgba(0, 0, 0, 255)
    ensures PaletteEntry(base, shades, shades - 1) == Rgba(Hi(base.r), Hi(base.g), Hi(base.b), 255)
  {
    assert (shades - 1) as real / (shades - 1) as real == 1.0;
  }

  /** Shades grow with the index and never exceed the base channel. */
  lemma ShadeMonotone(v: Byte, i: nat, j: nat, shades: int)
    requires shades >= 2 && i <= j < shades
    ensures Shade(v, i, shades) <= Shade(v, j, shades) <= v
  {
    FactorMonotone(i, j, shades);
    ScaledMonotone(Factor(i, shades), Factor(j, shades), v as real);
    ToByteMonotone(Scaled(Factor(i, shades), v as real), Scaled(Factor(j, shades), v as real));
  }

  // ---------------------------------------------------- highlight extraction

  /** `SoftThreshold`: zero below the threshold, then a linear ramp that
      reaches one at 255. A threshold of exactly 255 with a value at or above
      it divides by zero. */
  function SoftThreshold(val: real, thresh: real): (s: real)
    requires val < thresh || thresh != 255.0
    ensures val < thresh ==> s == 0.0
    ensures thresh < 255.0 && thresh <= val <= 255.0 ==> 0.0 <= s <= 1.0
  {
    if val < thresh then 0.0
    else
      RampBetween(val, thresh);
      (val - thresh) / (255.0 - thresh)
  }

  lemma RampBetween(val: real, thresh: real)
    requires thresh != 255.0
    ensures thresh < 255.0 && thresh <= val <= 255.0 ==> 0.0 <= (val - thresh) / (255.0 - thresh) <= 1.0
  {
    if thresh < 255.0 && thresh <= val <= 255.0 {
      QuotientBetween(val - thresh, 255.0 - thresh, 0.0, 1.0);
    }
  }

  lemma SoftThresholdAtFull(thresh: real)
    requires thresh < 255.0
    ensures SoftThreshold(255.0, thresh) == 1.0
  {
    var d := 255.0 - thresh;
    QuotientBetween(d, d, 1.0, 1.0);
    assert SoftThreshold(255.0, thresh) == d / d;
  }

  lemma SoftThresholdMonotone(u: real, v: real, thresh: real)
    requires u <= v && thresh < 255.0
    ensures SoftThreshold(u, thresh) <= SoftThreshold(v, thresh)
  {
    var d := 255.0 - thresh;
    assert d > 0.0;
    if thresh <= u {
      QuotientBetween(u - thresh, d, (u - thresh) / d, (u - thresh) / d);
      ScaleLe(u - thresh, v - thresh, 1.0 / d);
      assert (u - thresh) / d == (u - thresh) * (1.0 / d);
      assert (v - thresh) / d == (v - thresh) * (1.0 / d);
    } else if thresh <= v {
      ScaleLe(0.0, v - thresh, 1.0 / d);
      assert (v - thresh) / d == (v - thresh) * (1.0 / d);
    }
  }

  /** On a brightness in `[0, 255]` the factor is in `[0, 1]` whenever it is defined. */
  lemma SoftThresholdUnit(val: real, thresh: real)
    requires 0.0 <= val <= 255.0 && thresh != 255.0
    ensures 0.0 <= SoftThreshold(val, thresh) <= 1.0
  {
  }

  /** `0.2126*float64(r>>8) + 0.7152*float64(g>>8) + 0.0722*float64(b>>8)`. */
  function Brightness8(c: Color): (l: real)
    ensures 0.0 <= l <= 255.0
  {
    0.2126 * Hi(c.r) as real + 0.7152 * Hi(c.g) as real + 0.0722 * Hi(c.b) as real
  }

  /** `uint8(scaled * float64(v))`. */
  function Dim(s: real, v: Byte): (d: Byte)
    requires 0.0 <= s <= 1.0
    ensures d <= v
  {
    ToByte(Scaled(s, v as real))
  }

  /** One pixel of `ExtractHighlights`: the channels scaled by the soft
      threshold of the brightness, the alpha byte kept. */
  function HighlightPixel(c: Color, thresh: real): Color
    requires thresh != 1.0
  {
    var scaled := SoftThreshold(Brightness8(c), thresh * 255.0);
    SoftThresholdUnit(Brightness8(c), thresh * 255.0);
    Rgba(Dim(scaled, Hi(c.r)), Dim(scaled, Hi(c.g)), Dim(scaled, Hi(c.b)), Hi(c.a))
  }

  function HighlightSpec(img: Raster, thresh: real): (out: Raster)
    requires img.Valid() && thresh != 1.0
    ensures out.Valid() && out.width == img.width && out.height == img.height
    ensures forall y, x :: 0 <= y < img.height && 0 <= x < img.width ==>
      out.rows[y][x] == HighlightPixel(img.rows[y][x], thresh)
  {
    FromFunction(img.width, img.height, (x, y) => HighlightPixel(Pixel(img, x, y), thresh))
  }

  /** `ExtractHighlights`. A threshold of exactly 1 divides zero by zero on a white pixel. */
  method ExtractHighlights(img: Raster, thresh: real) returns (brightnessPass: Raster)
    requires img.Valid() && thresh != 1.0
    ensures brightnessPass == HighlightSpec(img, thresh)
    ensures forall y, x :: 0 <= y < img.height && 0 <= x < img.width ==>
      var c, h := img.rows[y][x], brightnessPass.rows[y][x];
      h.a == Widen(Hi(c.a)) && Hi(h.r) <= Hi(c.r) && Hi(h.g) <= Hi(c.g) && Hi(h.b) <= Hi(c.b)
    ensures thresh > 1.0 ==> NoColor(brightnessPass)
  {
    brightnessPass := Paint(img.width, img.height, Transparent, (x, y) => HighlightPixel(Pixel(img, x, y), thresh));
    Extensionality(brightnessPass, HighlightSpec(img, thresh));
    forall y, x | 0 <= y < img.height && 0 <= x < img.width
      ensures var c, h := img.rows[y][x], brightnessPass.rows[y][x];
        h.a == Widen(Hi(c.a)) && Hi(h.r) <= Hi(c.r) && Hi(h.g) <= Hi(c.g) && Hi(h.b) <= Hi(c.b)
    {
      HighlightKeepsAlphaAndDims(img.rows[y][x], thresh);
    }
    if thresh > 1.0 {
      forall y, x | 0 <= y < img.height && 0 <= x < img.width
        ensures brightnessPass.rows[y][x].r == 0 && brightnessPass.rows[y][x].g == 0 && brightnessPass.rows[y][x].b == 0
      {
        HighlightsVanish(img.rows[y][x], thresh);
      }
    }
  }

  lemma HighlightKeepsAlphaAndDims(c: Color, thresh: real)
    requires thresh != 1.0
    ensures var h := HighlightPixel(c, thresh);
      h.a == Widen(Hi(c.a)) && Hi(h.r) <= Hi(c.r) && Hi(h.g) <= Hi(c.g) && Hi(h.b) <= Hi(c.b)
  {
    var h := HighlightPixel(c, thresh);
    HiWiden(Hi(h.r));
    HiWiden(Dim(SoftThreshold(Brightness8(c), thresh * 255.0), Hi(c.r)));
    HiWiden(Dim(SoftThreshold(Brightness8(c), thresh * 255.0), Hi(c.g)));
    HiWiden(Dim(SoftThreshold(Brightness8(c), thresh * 255.0), Hi(c.b)));
  }

  /** Above a threshold of 1 the scaled threshold exceeds every brightness, so nothing is extracted. */
  lemma HighlightsVanish(c: Color, thresh: real)
    requires thresh > 1.0
    ensures var h := HighlightPixel(c, thresh); h.r == 0 && h.g == 0 && h.b == 0
  {
    assert Brightness8(c) < thresh * 255.0;
  }

  // ------------------------------------------------------------- blending

  /** `Clamp(val, min, max)`. */
  function Clamp(val: real, min: real, max: real): (r: real)
    ensures min <= max ==> min <= r <= max
    ensures min <= val <= max ==> r == val
  {
    if val < min then min else if val > max then max else val
  }

  /** One channel of `MergeImages`: `base*(1 - bloom/255*intensity) + bloom*intensity`, clamped. */
  function MergeChannel(base: Byte, bloom: Byte, intensity: real): Byte {
    var v := Clamp(base as real * (1.0 - (bloom as real / 255.0 * intensity)) + bloom as real * intensity, 0.0, 255.0);
    ToByte(v)
  }

  /** Without bloom a channel passes through unchanged. */
  lemma MergeWithoutBloom(base: Byte, intensity: real)
    ensures MergeChannel(base, 0, intensity) == base
  {
  }

  /** One pixel of `MergeImages`; alpha comes from the base. */
  function MergePixel(base: Color, bloom: Color, intensity: real): Color {
    Rgba(MergeChannel(Hi(base.r), Hi(bloom.r), intensity), MergeChannel(Hi(base.g), Hi(bloom.g), intensity),
         MergeChannel(Hi(base.b), Hi(bloom.b), intensity), Hi(base.a))
  }

  function MergeSpec(base: Raster, bloom: Raster, intensity: real): (out: Raster)
    requires base.Valid() && bloom.Valid()
    ensures out.Valid() && out.width == base.width && out.height == base.height
    ensures forall y, x :: 0 <= y < base.height && 0 <= x < base.width ==>
      out.rows[y][x] == MergePixel(base.rows[y][x], Pixel(bloom, x, y), intensity)
  {
    FromFunction(base.width, base.height, (x, y) => MergePixel(Pixel(base, x, y), Pixel(bloom, x, y), intensity))
  }

  /** `MergeImages` over the base's bounds; an image without colour as the
      bloom leaves the base's bytes as they are. */
  method MergeImages(base: Raster, bloom: Raster, intensity: real) returns (combined: Raster)
    requires base.Valid() && bloom.Valid()
    ensures combined == MergeSpec(base, bloom, intensity)
    ensures NoColor(bloom) && bloom.width == base.width && bloom.height == base.height ==>
      forall y, x :: 0 <= y < base.height && 0 <= x < base.width ==> combined.rows[y][x] == Narrow(base.rows[y][x])
  {
    combined := Paint(base.width, base.height, Transparent,
      (x, y) => MergePixel(Pixel(base, x, y), Pixel(bloom, x, y), intensity));
    Extensionality(combined, MergeSpec(base, bloom, intensity));
    if NoColor(bloom) && bloom.width == base.width && bloom.height == base.height {
      MergeNoColor(base, bloom, intensity);
    }
  }

  lemma MergeNoColor(base: Raster, bloom: Raster, intensity: real)
    requires base.Valid() && bloom.Valid() && NoColor(bloom)
    requires bloom.width == base.width && bloom.height == base.height
    ensures forall y, x :: 0 <= y < base.height && 0 <= x < base.width ==>
      MergeSpec(base, bloom, intensity).rows[y][x] == Narrow(base.rows[y][x])
  {
    forall y, x | 0 <= y < base.height && 0 <= x < base.width
      ensures MergePixel(base.rows[y][x], Pixel(bloom, x, y), intensity) == Narrow(base.rows[y][x])
    {
      var c := base.rows[y][x];
      MergeWithoutBloom(Hi(c.r), intensity);
      MergeWithoutBloom(Hi(c.g), intensity);
      MergeWithoutBloom(Hi(c.b), intensity);
    }
  }

  // ---------------------------------------------------------------- tint

  /** A `color.RGBA` value. */
  datatype Tint = Tint(r: Byte, g: Byte, b: Byte, a: Byte)

  /** `uint8(float64(v) * float64(t) / 255)`. */
  function TintChannel(v: Byte, t: Byte): (c: Byte)
    ensures c <= v
    ensures t == 255 ==> c == v
  {
    ToByte(Tinted(v as real, t as real))
  }

  /** `v * t / 255` (as `t * v / 255`) for a tint byte `t`: between 0 and `v`, and `v` itself at full tint. */
  function Tinted(v: real, t: real): (q: real)
    requires 0.0 <= v && 0.0 <= t <= 255.0
    ensures 0.0 <= q <= v
    ensures t == 255.0 ==> q == v
  {
    var q := t * v / 255.0;
    assert q * 255.0 == t * v;
    assert (255.0 - t) * v == 255.0 * v - t * v;
    q
  }

  function TintPixel(c: Color, tint: Tint): Color {
    Rgba(TintChannel(Hi(c.r), tint.r), TintChannel(Hi(c.g), tint.g), TintChannel(Hi(c.b), tint.b), Hi(c.a))
  }

  /** `TintImage`: every channel scaled by the tint's byte over 255, alpha kept. */
  method TintImage(img: Raster, tint: Tint) returns (tinted: Raster)
    requires img.Valid()
    ensures tinted.Valid() && tinted.width == img.width && tinted.height == img.height
    ensures forall y, x :: 0 <= y < img.height && 0 <= x < img.width ==>
      tinted.rows[y][x] == TintPixel(img.rows[y][x], tint)
  {
    tinted := Paint(img.width, img.height, Transparent, (x, y) => TintPixel(Pixel(img, x, y), tint));
  }

  // ---------------------------------------------------------------- bloom

  /** What `BloomImage` returns: highlights, blurred, merged back into the image. */
  function BloomSpec(img: Raster, blurSigma: real, expOf: real -> real, bloomThreshold: real, bloomIntensity: real): Raster
    requires img.Valid() && blurSigma > 0.0 && PositiveExp(expOf) && bloomThreshold != 1.0
  {
    var kernel := GaussianWeights(blurSigma, expOf);
    FastKernelPositive(blurSigma, expOf);
    MergeSpec(img, FastSpec(HighlightSpec(img, bloomThreshold), kernel), bloomIntensity)
  }

  lemma FastKernelPositive(sigma: real, expOf: real -> real)
    requires sigma > 0.0 && PositiveExp(expOf)
    ensures Positive(GaussianWeights(sigma, expOf))
  {
    var raw := RawGaussian(KernelSize(sigma), sigma, expOf);
    KernelSizeAtLeastThree(sigma);
    RawGaussianPositive(KernelSize(sigma), sigma, expOf);
    SumPositive(raw);
    NormaliseKernel(raw, Normalise(raw), sigma, expOf);
  }

  /** `BloomImage(img, blurSigma, bloomThreshold, bloomIntensity)`. With a
      threshold above 1 nothing is extracted, so the result is the image's
      own bytes. */
  method BloomImage(img: Raster, blurSigma: real, expOf: real -> real, bloomThreshold: real, bloomIntensity: real)
    returns (bloomed: Raster)
    requires img.Valid() && blurSigma > 0.0 && PositiveExp(expOf) && bloomThreshold != 1.0
    ensures bloomed == BloomSpec(img, blurSigma, expOf, bloomThreshold, bloomIntensity)
    ensures bloomThreshold > 1.0 ==>
      forall y, x :: 0 <= y < img.height && 0 <= x < img.width ==> bloomed.rows[y][x] == Narrow(img.rows[y][x])
  {
    var brightnessMap := ExtractHighlights(img, bloomThreshold);
    var blurredBrightness := FastGaussianBlur(brightnessMap, blurSigma, expOf);
    if bloomThreshold > 1.0 {
      FastKeepsNoColor(brightnessMap, GaussianWeights(blurSigma, expOf));
    }
    bloomed := MergeImages(img, blurredBrightness, bloomIntensity);
  }

  // ----------------------------------------------------------- colour burn

  /** `ColorBurn(c, factor)`: the scaled byte, capped at 255. A negative
      factor would convert a negative float to `uint8`, so it is excluded. */
  function ColorBurn(c: Byte, factor: real): (burned: Byte)
    requires factor >= 0.0
    ensures factor >= 1.0 ==> burned >= c
    ensures factor == 1.0 ==> burned == c
  {
    ToByte(Capped(Amplified(c as real, factor)))
  }

  /** `if burned > 255 { burned = 255 }`. */
  function Capped(x: real): (r: real)
    ensures r <= 255.0 && (x <= 255.0 ==> r == x)
  {
    if x > 255.0 then 255.0 else x
  }

  /** `v * factor` for a non-negative factor: never negative, and at least
      `v` from a factor of 1 on. */
  function Amplified(v: real, factor: real): (p: real)
    requires v >= 0.0 && factor >= 0.0
    ensures p >= 0.0
    ensures factor >= 1.0 ==> p >= v
    ensures factor == 1.0 ==> p == v
  {
    ScaleLe(0.0, factor, v);
    ScaleLe(1.0, if factor >= 1.0 then factor else 1.0, v);
    v * factor
  }

  lemma AmplifiedMonotone(u: real, v: real, factor: real)
    requires 0.0 <= u <= v && factor >= 0.0
    ensures Amplified(u, factor) <= Amplified(v, factor)
  {
    ScaleLe(u, v, factor);
  }

  lemma ColorBurnMonotone(c: Byte, d: Byte, factor: real)
    requires c <= d && factor >= 0.0
    ensures ColorBurn(c, factor) <= ColorBurn(d, factor)
  {
    AmplifiedMonotone(c as real, d as real, factor);
    CappedByteMonotone(Amplified(c as real, factor), Amplified(d as real, factor));
  }

  lemma CappedByteMonotone(x: real, y: real)
    requires 0.0 <= x <= y
    ensures ToByte(Capped(x)) <= ToByte(Capped(y))
  {
    ToByteMonotone(Capped(x), Capped(y));
  }

  function BurnPixel(c: Color, factor: real): Color
    requires factor >= 0.0
  {
    Rgba(ColorBurn(Hi(c.r), factor), ColorBurn(Hi(c.g), factor), ColorBurn(Hi(c.b), factor), Hi(c.a))
  }

  /** `ApplyColorBurn`: every channel burned, alpha kept. */
  method ApplyColorBurn(img: Raster, burnFactor: real) returns (burnedImg: Raster)
    requires img.Valid() && burnFactor >= 0.0
    ensures burnedImg.Valid() && burnedImg.width == img.width && burnedImg.height == img.height
    ensures forall y, x :: 0 <= y < img.height && 0 <= x < img.width ==>
      burnedImg.rows[y][x] == BurnPixel(img.rows[y][x], burnFactor) && burnedImg.rows[y][x].a == img.rows[y][x].a / 256 * 257
  {
    burnedImg := Paint(img.width, img.height, Transparent, (x, y) => BurnPixel(Pixel(img, x, y), burnFactor));
  }
}
