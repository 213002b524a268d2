/** The post-processing of the older root package (`utils_postprocessing.go`).

    `generateBrightnessPalette`, `clamp`, `mergeImages`, `applyColorBurn` and
    `colorBurn` there are the live package's functions letter for letter and
    are modelled by `PostProcessing`. What differs is `extractHighlights`,
    whose brightness test is an integer division, and `bloomImage`, which
    blurs with the gray-valued `gaussianBlur`. */
module LegacyPostProcessing {
  import opened GoNumeric
  import opened Grids
  import opened Pixels
  import opened Kernels
  import opened GaussianBlur
  import opened PostProcessing

  /** `(r + g + b) / 65535.0 / 3` on the `uint32` channels: the constant is
      converted to `uint32`, so both divisions truncate. */
  function AverageBrightness(c: Color): (v: nat)
    ensures v <= 1
    ensures v == 1 <==> c.r == 65535 && c.g == 65535 && c.b == 65535
  {
    (c.r + c.g + c.b) / 65535 / 3
  }

  /** The pixel `extractHighlights` writes: an 8-bit copy when the average
      passes the threshold, zero otherwise. */
  function HighlightPixel(c: Color, thresh: real): (h: Color)
    ensures h == Narrow(c) || h == Transparent
    ensures thresh >= 1.0 ==> h == Transparent
    ensures thresh < 0.0 ==> h == Narrow(c)
    ensures 0.0 <= thresh < 1.0 ==>
      h == if c.r == 65535 && c.g == 65535 && c.b == 65535 then Narrow(c) else Transparent
  {
    if AverageBrightness(c) as real > thresh then Narrow(c) else Transparent
  }

  function HighlightSpec(img: Raster, thresh: real): (out: Raster)
    requires img.Valid()
    ensures out.Valid() && out.width == img.width && out.height == img.height
  {
    FromFunction(img.width, img.height, (x, y) => HighlightPixel(Pixel(img, x, y), thresh))
  }

  /** `extractHighlights`. From a threshold of 1 on nothing passes, so the
      pass is a zero image. */
  method ExtractHighlights(img: Raster, thresh: real) returns (brightnessPass: Raster)
    requires img.Valid()
    ensures brightnessPass == HighlightSpec(img, thresh)
    ensures forall y, x :: 0 <= y < img.height && 0 <= x < img.width ==>
      brightnessPass.rows[y][x] == Narrow(img.rows[y][x]) || brightnessPass.rows[y][x] == Transparent
    ensures thresh >= 1.0 ==> forall y, x :: 0 <= y < img.height && 0 <= x < img.width ==>
      brightnessPass.rows[y][x] == Transparent
  {
    brightnessPass := Paint(img.width, img.height, Transparent, (x, y) => HighlightPixel(Pixel(img, x, y), thresh));
  }

  /** The gray blur of the highlights, read back as colours, merged into the image. */
  function BloomSpec(img: Raster, blurSigma: real, expOf: real -> real, bloomThreshold: real, bloomIntensity: real): Raster
    requires img.Valid() && blurSigma > 0.0 && PositiveExp(expOf)
  {
    var kernel := GaussianWeights(blurSigma, expOf);
    FastKernelPositive(blurSigma, expOf);
    MergeSpec(img, GrayAsRaster(PerfectSpec(HighlightSpec(img, bloomThreshold), kernel)), bloomIntensity)
  }

  /** `bloomImage`. With a threshold of at least 1 (the caller passes 200)
      the bloom is zero and the image comes back as its own 8-bit channels. */
  method BloomImage(img: Raster, blurSigma: real, expOf: real -> real, bloomThreshold: real, bloomIntensity: real)
    returns (bloomed: Raster)
    requires img.Valid() && blurSigma > 0.0 && PositiveExp(expOf)
    ensures bloomed == BloomSpec(img, blurSigma, expOf, bloomThreshold, bloomIntensity)
    ensures bloomThreshold >= 1.0 ==>
      forall y, x :: 0 <= y < img.height && 0 <= x < img.width ==> bloomed.rows[y][x] == Narrow(img.rows[y][x])
  {
    var brightnessMap := ExtractHighlights(img, bloomThreshold);
    var blurredBrightness := PerfectGaussianBlur(brightnessMap, blurSigma, expOf);
    var bloom := GrayAsRaster(blurredBrightness);
    if bloomThreshold >= 1.0 {
      PerfectOfNoColor(brightnessMap, GaussianWeights(blurSigma, expOf));
      assert NoColor(bloom);
    }
    bloomed := MergeImages(img, bloom, bloomIntensity);
  }
}
