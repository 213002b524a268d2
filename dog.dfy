/** `cmd/difference_of_gaussians.go`: two Gaussian blurs, their weighted
    difference binarised against a threshold, then a 3x3 median filter. */
module DifferenceOfGaussians {
  import opened GoNumeric
  import opened Grids
  import opened Pixels
  import opened ColorUtils
  import opened Kernels
  import opened GaussianBlur
  import opened Median

  // ---------------------------------------------------------- binarisation

  /** `(1+tau)*lum1 - tau*lum2` on the 8-bit luminances of the two blurs. */
  function Difference(blur1: Raster, blur2: Raster, x: int, y: int, tau: real): real
    requires blur1.Valid() && blur2.Valid()
  {
    (1.0 + tau) * Gray8(Pixel(blur1, x, y)) - tau * Gray8(Pixel(blur2, x, y))
  }

  /** White where the difference strictly exceeds `threshold*255`, black elsewhere. */
  function DogPixel(blur1: Raster, blur2: Raster, x: int, y: int, threshold: real, tau: real): (v: Byte)
    requires blur1.Valid() && blur2.Valid()
    ensures v == 0 || v == 255
    ensures v == 255 <==> Difference(blur1, blur2, x, y, tau) > threshold * 255.0
  {
    if Difference(blur1, blur2, x, y, tau) > threshold * 255.0 then 255 else 0
  }

  predicate Binary(img: GrayImage)
    requires img.Valid()
  {
    forall y, x :: 0 <= y < img.height && 0 <= x < img.width ==> img.rows[y][x] == 0 || img.rows[y][x] == 255
  }

  /** The `dogImage` the binarisation loop fills over the source's bounds. */
  function DogSpec(width: nat, height: nat, blur1: Raster, blur2: Raster, threshold: real, tau: real): (out: GrayImage)
    requires blur1.Valid() && blur2.Valid()
    ensures out.Valid() && out.width == width && out.height == height && Binary(out)
    ensures forall y, x :: 0 <= y < height && 0 <= x < width ==>
      (out.rows[y][x] == 255 <==> Difference(blur1, blur2, x, y, tau) > threshold * 255.0)
  {
    FromFunction(width, height, (x, y) => DogPixel(blur1, blur2, x, y, threshold, tau))
  }

  // ---------------------------------------------------------- median filter

  /** The nine values the `ky`/`kx` loops append, row by row. */
  function Neighbourhood(img: GrayImage, x: int, y: int): (n: seq<Byte>)
    requires img.Valid()
    ensures |n| == 9
  {
    seq(9, k => GrayAt(img, x + k % 3 - 1, y + k / 3 - 1))
  }

  predicate Inner(img: GrayImage, x: int, y: int) {
    1 <= x < img.width - 1 && 1 <= y < img.height - 1
  }

  function MedianAt(img: GrayImage, x: int, y: int): Byte
    requires img.Valid()
  {
    if Inner(img, x, y) then MedianOf(Neighbourhood(img, x, y)) else 0
  }

  /** What `medianFilter` returns: interior pixels are the median of their 3x3
      neighbourhood, which is one of its nine values; the border stays 0. */
  function MedianSpec(img: GrayImage): (out: GrayImage)
    requires img.Valid()
    ensures out.Valid() && out.width == img.width && out.height == img.height
    ensures forall y, x :: 0 <= y < img.height && 0 <= x < img.width ==>
      (Inner(img, x, y) ==> out.rows[y][x] in Neighbourhood(img, x, y)) &&
      (!Inner(img, x, y) ==> out.rows[y][x] == 0)
  {
    FromFunction(img.width, img.height, (x, y) => MedianAt(img, x, y))
  }

  /** `medianFilter`. */
  method MedianFilter(img: GrayImage) returns (filtered: GrayImage)
    requires img.Valid()
    ensures filtered == MedianSpec(img)
  {
    filtered := Fill(img.width, img.height, 0);
    var y := 1;
    while y < img.height - 1
      invariant 1 <= y && (img.height >= 2 ==> y <= img.height - 1)
      invariant filtered.Valid() && filtered.width == img.width && filtered.height == img.height
      invariant forall j, i :: 0 <= j < img.height && 0 <= i < img.width ==>
        filtered.rows[j][i] == if j < y then MedianAt(img, i, j) else 0
    {
      filtered := MedianRow(img, filtered, y);
      y := y + 1;
    }
    Extensionality(filtered, MedianSpec(img));
  }

  /** One pass of the `x` loop on interior row `y`. */
  method MedianRow(img: GrayImage, filtered: GrayImage, y: int) returns (out: GrayImage)
    requires img.Valid() && filtered.Valid() && filtered.width == img.width && filtered.height == img.height
    requires 1 <= y < img.height - 1
    requires forall i :: 0 <= i < img.width ==> filtered.rows[y][i] == 0
    ensures out.Valid() && out.width == img.width && out.height == img.height
    ensures forall j, i :: 0 <= j < img.height && 0 <= i < img.width ==>
      out.rows[j][i] == if j == y then MedianAt(img, i, j) else filtered.rows[j][i]
  {
    out := filtered;
    var x := 1;
    while x < img.width - 1
      invariant 1 <= x && (img.width >= 2 ==> x <= img.width - 1)
      invariant out.Valid() && out.width == img.width && out.height == img.height
      invariant forall j, i :: 0 <= j < img.height && 0 <= i < img.width ==>
        out.rows[j][i] == if j == y && 1 <= i < x then MedianAt(img, i, j) else filtered.rows[j][i]
    {
      var pixels := Collect(img, x, y);
      var buffer := new Byte[9](k => if 0 <= k < |pixels| then pixels[k] else 0);
      assert buffer[..] == pixels;
      var median := FindMedian(buffer);
      out := out.Set(x, y, median);
      x := x + 1;
    }
  }

  /** The `ky`/`kx` loops appending the neighbourhood to `pixels`. */
  method Collect(img: GrayImage, x: int, y: int) returns (pixels: seq<Byte>)
    requires img.Valid()
    ensures pixels == Neighbourhood(img, x, y)
  {
    pixels := [];
    for ky := -1 to 2
      invariant |pixels| == 3 * (ky + 1)
      invariant forall k :: 0 <= k < |pixels| ==> pixels[k] == GrayAt(img, x + k % 3 - 1, y + k / 3 - 1)
    {
      for kx := -1 to 2
        invariant |pixels| == 3 * (ky + 1) + kx + 1
        invariant forall k :: 0 <= k < |pixels| ==> pixels[k] == GrayAt(img, x + k % 3 - 1, y + k / 3 - 1)
      {
        pixels := pixels + [GrayAt(img, x + kx, y + ky)];
      }
    }
  }

  // ------------------------------------------------------------- pipeline

  /** `DifferenceOfGaussians(src, sigma, sigma_scale, threshold, tau)`. The
      result is binary everywhere: the median of 0/255 values is one of them,
      and the border is 0. */
  method DifferenceOfGaussians(src: Raster, sigma: real, sigmaScale: real, threshold: real, tau: real, expOf: real -> real)
    returns (edges: GrayImage)
    requires src.Valid() && sigma > 0.0 && sigma * sigmaScale > 0.0 && PositiveExp(expOf)
    ensures FastKernelIsPositive(sigma, expOf) && FastKernelIsPositive(sigma * sigmaScale, expOf)
    ensures edges == MedianSpec(DogSpec(src.width, src.height,
      FastSpec(src, GaussianWeights(sigma, expOf)), FastSpec(src, GaussianWeights(sigma * sigmaScale, expOf)), threshold, tau))
    ensures edges.width == src.width && edges.height == src.height && Binary(edges)
  {
    var blur1 := FastGaussianBlur(src, sigma, expOf);
    var blur2 := FastGaussianBlur(src, sigma * sigmaScale, expOf);
    var dogImage := Paint(src.width, src.height, 0, (x, y) => DogPixel(blur1, blur2, x, y, threshold, tau));
    edges := MedianFilter(dogImage);
    MedianKeepsBinary(dogImage);
  }

  predicate FastKernelIsPositive(sigma: real, expOf: real -> real)
    requires sigma > 0.0 && PositiveExp(expOf)
  {
    Positive(GaussianWeights(sigma, expOf))
  }

  /** A binary image stays binary under the median filter. */
  lemma MedianKeepsBinary(img: GrayImage)
    requires img.Valid() && Binary(img)
    ensures Binary(MedianSpec(img))
  {
    var out := MedianSpec(img);
    forall y, x | 0 <= y < img.height && 0 <= x < img.width && Inner(img, x, y)
      ensures out.rows[y][x] == 0 || out.rows[y][x] == 255
    {
      var n := Neighbourhood(img, x, y);
      var k :| 0 <= k < 9 && n[k] == out.rows[y][x];
      assert n[k] == GrayAt(img, x + k % 3 - 1, y + k / 3 - 1);
    }
  }

  /** A constant 3x3 neighbourhood filters to that constant. */
  lemma MedianOfConstantNeighbourhood(img: GrayImage, x: int, y: int, v: Byte)
    requires img.Valid() && Inner(img, x, y)
    requires forall j, i :: y - 1 <= j <= y + 1 && x - 1 <= i <= x + 1 ==> img.rows[j][i] == v
    ensures MedianSpec(img).rows[y][x] == v
  {
    var n := Neighbourhood(img, x, y);
    forall k | 0 <= k < 9
      ensures n[k] == v
    {
      assert 0 <= k % 3 < 3 && 0 <= k / 3 < 3;
      assert n[k] == img.rows[y + k / 3 - 1][x + k % 3 - 1];
    }
    MedianOfConstant(n, v);
  }

  /** Five of the nine neighbours are at most the filtered value and five are at least it. */
  lemma MedianSplitsNeighbourhood(img: GrayImage, x: int, y: int)
    requires img.Valid() && Inner(img, x, y)
    ensures var n, m := Neighbourhood(img, x, y), MedianSpec(img).rows[y][x];
      CountBetween(n, 0, m) >= 5 && CountBetween(n, m, 255) >= 5
  {
    MedianRank(Neighbourhood(img, x, y));
  }
}
