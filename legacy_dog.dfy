/** The difference of Gaussians of the older root package
    (`difference_of_gaussians.go`).

    Its `gaussianKernel` is `Kernels.GaussianWeights`, its `gaussianBlur` is
    the single-pass gray blur `GaussianBlur.PerfectGaussianBlur`, and its
    `medianFilter` and `findMedian` are the live package's; only the
    pipeline differs, since it binarises the two gray blurs read back as
    colours. */
module LegacyDifferenceOfGaussians {
  import opened Grids
  import opened Pixels
  import opened Kernels
  import opened GaussianBlur
  import opened DifferenceOfGaussians

  /** A blur with a positive `sigma` has a positive kernel. */
  predicate KernelIsPositive(sigma: real, expOf: real -> real)
    requires sigma > 0.0 && PositiveExp(expOf)
  {
    Positive(GaussianWeights(sigma, expOf))
  }

  /** The binarised difference of the two gray blurs, before the median filter. */
  function LegacyDogSpec(src: Raster, sigma: real, sigmaScale: real, threshold: real, tau: real, expOf: real -> real)
    : (out: GrayImage)
    requires src.Valid() && sigma > 0.0 && sigma * sigmaScale > 0.0 && PositiveExp(expOf)
    requires KernelIsPositive(sigma, expOf) && KernelIsPositive(sigma * sigmaScale, expOf)
    ensures out.Valid() && out.width == src.width && out.height == src.height && Binary(out)
  {
    DogSpec(src.width, src.height,
      GrayAsRaster(PerfectSpec(src, GaussianWeights(sigma, expOf))),
      GrayAsRaster(PerfectSpec(src, GaussianWeights(sigma * sigmaScale, expOf))), threshold, tau)
  }

  /** `differenceOfGaussians`: only black and white reach the median filter,
      white exactly where the difference strictly exceeds `threshold*255`,
      and the filter keeps the image binary. */
  method LegacyDifferenceOfGaussians(src: Raster, sigma: real, sigmaScale: real, threshold: real, tau: real,
                                     expOf: real -> real)
    returns (edges: GrayImage)
    requires src.Valid() && sigma > 0.0 && sigma * sigmaScale > 0.0 && PositiveExp(expOf)
    ensures KernelIsPositive(sigma, expOf) && KernelIsPositive(sigma * sigmaScale, expOf)
    ensures edges == MedianSpec(LegacyDogSpec(src, sigma, sigmaScale, threshold, tau, expOf))
    ensures edges.width == src.width && edges.height == src.height && Binary(edges)
  {
    var blur1 := PerfectGaussianBlur(src, sigma, expOf);
    var blur2 := PerfectGaussianBlur(src, sigma * sigmaScale, expOf);
    var gray1, gray2 := GrayAsRaster(blur1), GrayAsRaster(blur2);
    var dogImage := Paint(src.width, src.height, 0, (x, y) => DogPixel(gray1, gray2, x, y, threshold, tau));
    edges := MedianFilter(dogImage);
    MedianKeepsBinary(dogImage);
  }
}
