/** The kernel builders of `cmd/utils/gaussian_blur.go`: the normalised
    Gaussian, the unnormalised "polynomial" Gaussian and the box-size solver.
    `math.Exp` is the parameter `expOf`; the square root in `BoxKernel` is
    the parameter `root`. */
module Kernels {
  import opened GoNumeric

  function Sum(s: seq<real>): real {
    if |s| == 0 then 0.0 else Sum(s[..|s| - 1]) + s[|s| - 1]
  }

  lemma {:induction false} SumPositive(s: seq<real>)
    requires |s| > 0 && forall i :: 0 <= i < |s| ==> s[i] > 0.0
    ensures Sum(s) > 0.0
  {
    if |s| > 1 {
      SumPositive(s[..|s| - 1]);
    }
  }

  /** Dividing every entry by `d` divides the sum by `d`. */
  lemma {:induction false} SumDivided(s: seq<real>, t: seq<real>, d: real)
    requires d != 0.0 && |s| == |t| && forall i :: 0 <= i < |s| ==> t[i] == s[i] / d
    ensures Sum(t) == Sum(s) / d
  {
    if |s| > 0 {
      SumDivided(s[..|s| - 1], t[..|t| - 1], d);
    }
  }

  /** An exponential that is positive everywhere, as `math.Exp` is. */
  ghost predicate PositiveExp(expOf: real -> real) {
    forall t :: expOf(t) > 0.0
  }

  predicate Symmetric(s: seq<real>) {
    forall i :: 0 <= i < |s| ==> s[i] == s[|s| - 1 - i]
  }

  /** `exp(-(x*x) / (2*sigma*sigma))`. */
  function RawWeight(x: int, sigma: real, expOf: real -> real): real
    requires sigma != 0.0
  {
    expOf(-((x as real) * (x as real)) / (2.0 * sigma * sigma))
  }

  /** `int(math.Ceil(sigma*3.0)*2.0 + 1)`. */
  function KernelSize(sigma: real): (n: int)
    ensures n % 2 == 1 && n / 2 == Ceil(sigma * 3.0)
  {
    Ceil(sigma * 3.0) * 2 + 1
  }

  /** The weights before normalisation, at offsets `i - size/2`. */
  function RawGaussian(size: nat, sigma: real, expOf: real -> real): (s: seq<real>)
    requires sigma != 0.0
    ensures |s| == size
  {
    seq(size, i => RawWeight(i - size / 2, sigma, expOf))
  }

  function Normalise(s: seq<real>): (t: seq<real>)
    requires Sum(s) != 0.0
    ensures |t| == |s|
  {
    seq(|s|, i requires 0 <= i < |s| => s[i] / Sum(s))
  }

  lemma QuotientPositive(a: real, b: real)
    requires a > 0.0 && b > 0.0
    ensures a / b > 0.0
  {
  }

  /** Normalised weights sum to one. */
  lemma NormaliseSumsToOne(s: seq<real>)
    requires Sum(s) != 0.0
    ensures Sum(Normalise(s)) == 1.0
  {
    SumDivided(s, Normalise(s), Sum(s));
    assert Sum(s) / Sum(s) == 1.0;
  }

  /** Offsets `i - size/2` and `(size-1-i) - size/2` are opposite for odd sizes,
      so the raw Gaussian is symmetric. */
  lemma RawGaussianSymmetric(size: nat, sigma: real, expOf: real -> real)
    requires sigma != 0.0 && size % 2 == 1
    ensures Symmetric(RawGaussian(size, sigma, expOf))
  {
    var s := RawGaussian(size, sigma, expOf);
    forall i | 0 <= i < size
      ensures s[i] == s[size - 1 - i]
    {
      var x := i - size / 2;
      assert size == 2 * (size / 2) + 1;
      assert (size - 1 - i) - size / 2 == -x;
      RawWeightEven(x, sigma, expOf);
    }
  }

  lemma RawGaussianPositive(size: nat, sigma: real, expOf: real -> real)
    requires sigma != 0.0 && PositiveExp(expOf)
    ensures forall i :: 0 <= i < size ==> RawGaussian(size, sigma, expOf)[i] > 0.0
  {
    forall i | 0 <= i < size
      ensures RawGaussian(size, sigma, expOf)[i] > 0.0
    {
      assert RawGaussian(size, sigma, expOf)[i] == RawWeight(i - size / 2, sigma, expOf);
    }
  }

  lemma KernelSizeAtLeastThree(sigma: real)
    requires sigma > 0.0
    ensures KernelSize(sigma) >= 3
  {
  }

  lemma RawWeightEven(x: int, sigma: real, expOf: real -> real)
    requires sigma != 0.0
    ensures RawWeight(-x, sigma, expOf) == RawWeight(x, sigma, expOf)
  {
    assert ((-x) as real) * ((-x) as real) == (x as real) * (x as real);
  }

  /** The kernel `GaussianKernel(sigma)` returns. */
  function GaussianWeights(sigma: real, expOf: real -> real): (k: seq<real>)
    requires sigma > 0.0 && PositiveExp(expOf)
    ensures |k| == KernelSize(sigma)
  {
    var raw := RawGaussian(KernelSize(sigma), sigma, expOf);
    KernelSizeAtLeastThree(sigma);
    RawGaussianPositive(KernelSize(sigma), sigma, expOf);
    SumPositive(raw);
    Normalise(raw)
  }

  /** `GaussianKernel`: fill the slice with raw weights, then divide it in place by their sum. */
  method GaussianKernel(sigma: real, expOf: real -> real) returns (kernel: seq<real>)
    requires sigma > 0.0 && PositiveExp(expOf)
    ensures kernel == GaussianWeights(sigma, expOf)
    ensures |kernel| == 2 * Ceil(sigma * 3.0) + 1
    ensures Symmetric(kernel)
    ensures Sum(kernel) == 1.0
    ensures forall i :: 0 <= i < |kernel| ==> kernel[i] > 0.0
  {
    var size := Ceil(sigma * 3.0) * 2 + 1;
    ghost var raw := RawGaussian(size, sigma, expOf);
    KernelSizeAtLeastThree(sigma);
    RawGaussianPositive(size, sigma, expOf);
    var a := new real[size];
    var sum := 0.0;
    for i := 0 to size
      invariant forall j :: 0 <= j < i ==> a[j] == raw[j]
      invariant sum == Sum(raw[..i])
    {
      a[i] := RawWeight(i - size / 2, sigma, expOf);
      assert raw[..i + 1][..i] == raw[..i];
      sum := sum + a[i];
    }
    assert raw[..size] == raw;
    SumPositive(raw);
    for i := 0 to size
      invariant forall j :: 0 <= j < i ==> a[j] == raw[j] / sum
      invariant forall j :: i <= j < size ==> a[j] == raw[j]
    {
      a[i] := a[i] / sum;
    }
    kernel := a[..];
    NormaliseKernel(raw, kernel, sigma, expOf);
  }

  /** The normalised slice is the specified kernel, and it is symmetric, positive and sums to one. */
  lemma NormaliseKernel(raw: seq<real>, kernel: seq<real>, sigma: real, expOf: real -> real)
    requires sigma > 0.0 && PositiveExp(expOf)
    requires raw == RawGaussian(KernelSize(sigma), sigma, expOf) && Sum(raw) > 0.0
    requires |kernel| == |raw| && forall j :: 0 <= j < |raw| ==> kernel[j] == raw[j] / Sum(raw)
    ensures kernel == GaussianWeights(sigma, expOf)
    ensures Symmetric(kernel) && Sum(kernel) == 1.0
    ensures forall i :: 0 <= i < |kernel| ==> kernel[i] > 0.0
  {
    assert kernel == Normalise(raw);
    NormaliseSumsToOne(raw);
    RawGaussianSymmetric(|raw|, sigma, expOf);
    RawGaussianPositive(|raw|, sigma, expOf);
    forall i | 0 <= i < |kernel|
      ensures kernel[i] > 0.0 && kernel[i] == kernel[|kernel| - 1 - i]
    {
      QuotientPositive(raw[i], Sum(raw));
    }
  }

  /** `PolynomialGaussianKernel(sigma, radius)`: `2*radius+1` raw weights at offsets `-radius .. radius`. */
  method PolynomialGaussianKernel(sigma: real, radius: int, expOf: real -> real) returns (kernel: seq<real>)
    requires sigma != 0.0 && radius >= 0 && PositiveExp(expOf)
    ensures kernel == RawGaussian(2 * radius + 1, sigma, expOf)
    ensures Symmetric(kernel) && |kernel| == 2 * radius + 1
    ensures forall i :: 0 <= i < |kernel| ==> kernel[i] > 0.0
  {
    var a := new real[2 * radius + 1];
    var i := -radius;
    while i <= radius
      invariant -radius <= i <= radius + 1
      invariant forall j :: 0 <= j < i + radius ==> a[j] == RawWeight(j - radius, sigma, expOf)
      invariant (2 * radius + 1) / 2 == radius
    {
      a[i + radius] := RawWeight(i, sigma, expOf);
      i := i + 1;
    }
    kernel := a[..];
    assert kernel == RawGaussian(2 * radius + 1, sigma, expOf);
    RawGaussianSymmetric(2 * radius + 1, sigma, expOf);
    RawGaussianPositive(2 * radius + 1, sigma, expOf);
  }

  // ------------------------------------------------------------ box sizes

  /** `if int(kernelValue)%2 == 0 { kernelValue -= 1 }`. */
  function AdjustKernelValue(kv: real): (adjusted: real)
    requires kv >= 1.0
    ensures adjusted >= 1.0 && Trunc(adjusted) % 2 == 1
    ensures adjusted == kv || adjusted == kv - 1.0
  {
    if Trunc(kv) % 2 == 0 then
      TruncStep(kv);
      kv - 1.0
    else kv
  }

  lemma TruncStep(x: real)
    requires x >= 1.0
    ensures Trunc(x - 1.0) == Trunc(x) - 1
  {
    assert Trunc(x) == x.Floor;
    assert Trunc(x - 1.0) == (x - 1.0).Floor;
  }

  /** `thresh`: how many boxes take the smaller size. */
  function BoxThreshold(sigma: real, nBoxes: int, kv: real): int
    requires kv >= 1.0
  {
    var n := nBoxes as real;
    Trunc((12.0 * sigma * sigma - n * kv * kv - 4.0 * n * kv - 3.0 * n) / (-4.0 * kv - 4.0))
  }

  /** `BoxKernel(sigma, nBoxes)`. `root` is the value of
      `math.Sqrt(12*sigma*sigma/nBoxes + 1)`, which is at least one. */
  method BoxKernel(sigma: real, nBoxes: int, root: real) returns (boxSizes: seq<int>)
    requires nBoxes >= 1 && root >= 1.0
    ensures |boxSizes| == nBoxes
    ensures var kv := AdjustKernelValue(root);
      forall i :: 0 <= i < nBoxes ==>
        boxSizes[i] == if i < BoxThreshold(sigma, nBoxes, kv) then Trunc(kv) else Trunc(kv) + 2
    ensures forall i :: 0 <= i < nBoxes ==> boxSizes[i] >= 1 && boxSizes[i] % 2 == 1
    ensures forall i, j :: 0 <= i <= j < nBoxes ==> boxSizes[i] <= boxSizes[j]
  {
    var kernelValue := root;
    if Trunc(kernelValue) % 2 == 0 {
      kernelValue := kernelValue - 1.0;
    }
    assert kernelValue == AdjustKernelValue(root);
    var thresh := BoxThreshold(sigma, nBoxes, kernelValue);
    var a := new int[nBoxes];
    for i := 0 to nBoxes
      invariant forall j :: 0 <= j < i ==> a[j] == if j < thresh then Trunc(kernelValue) else Trunc(kernelValue) + 2
    {
      if i < thresh {
        a[i] := Trunc(kernelValue);
      } else {
        a[i] := Trunc(kernelValue) + 2;
      }
    }
    boxSizes := a[..];
    TwoSizes(boxSizes, Trunc(kernelValue), thresh);
  }

  /** A run of one odd size followed by a run of the next odd size is odd-valued and non-decreasing. */
  lemma TwoSizes(sizes: seq<int>, small: int, thresh: int)
    requires small >= 1 && small % 2 == 1
    requires forall i :: 0 <= i < |sizes| ==> sizes[i] == if i < thresh then small else small + 2
    ensures forall i :: 0 <= i < |sizes| ==> sizes[i] >= 1 && sizes[i] % 2 == 1
    ensures forall i, j :: 0 <= i <= j < |sizes| ==> sizes[i] <= sizes[j]
  {
  }

  /** `(boxSize-1)/2`, the radius `GaussianBlurApprox` passes to each box pass. */
  function BoxRadius(boxSize: int): int
    requires boxSize >= 1
  {
    (boxSize - 1) / 2
  }

  /** For an odd size the radius reproduces the size exactly. */
  lemma BoxRadiusExact(boxSize: int)
    requires boxSize >= 1 && boxSize % 2 == 1
    ensures BoxRadius(boxSize) >= 0 && 2 * BoxRadius(boxSize) + 1 == boxSize
  {
  }

  /** The radii of `GaussianBlurApprox`: three boxes, each pass of width exactly its box size, non-decreasing. */
  method GaussianBlurApproxRadii(sigma: real, root: real) returns (radii: seq<int>)
    requires root >= 1.0
    ensures |radii| == 3
    ensures forall i :: 0 <= i < 3 ==> radii[i] >= 0
    ensures forall i, j :: 0 <= i <= j < 3 ==> radii[i] <= radii[j]
    ensures var kv := AdjustKernelValue(root);
      forall i :: 0 <= i < 3 ==>
        2 * radii[i] + 1 == if i < BoxThreshold(sigma, 3, kv) then Trunc(kv) else Trunc(kv) + 2
  {
    var boxes := BoxKernel(sigma, 3, root);
    radii := [];
    for i := 0 to 3
      invariant |radii| == i
      invariant forall j :: 0 <= j < i ==> radii[j] >= 0 && 2 * radii[j] + 1 == boxes[j]
    {
      BoxRadiusExact(boxes[i]);
      radii := radii + [BoxRadius(boxes[i])];
    }
  }
}
