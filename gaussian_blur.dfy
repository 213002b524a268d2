/** The separable and two-dimensional Gaussian blurs of
    `cmd/utils/gaussian_blur.go`.

    A pass accumulates, for each written pixel, the kernel-weighted high bytes
    of the taps that pass its range guard, then writes
    `color.RGBA{uint8(sumR/kernelSum), .., 255}`. Which pixels each variant
    writes, and with what range guard, is the point of the model. */
module GaussianBlur {
  import opened GoNumeric
  import opened Grids
  import opened Pixels
  import opened ColorUtils
  import opened Kernels

  predicate Positive(kernel: seq<real>) {
    forall i :: 0 <= i < |kernel| ==> kernel[i] > 0.0
  }

  /** The running sums of one pixel: red, green, blue and the kernel weight. */
  datatype Acc = Acc(r: real, g: real, b: real, weight: real)

  /** Every channel sum is a weighted sum of bytes. */
  predicate Bounded(a: Acc) {
    0.0 <= a.weight &&
    0.0 <= a.r <= 255.0 * a.weight && 0.0 <= a.g <= 255.0 * a.weight && 0.0 <= a.b <= 255.0 * a.weight
  }

  /** Tap `t` of the kernel sits at offset `t - len/2`. */
  function Offset(kernel: seq<real>, t: int): int {
    t - |kernel| / 2
  }

  /** The range guard: the tap's coordinate along the pass lies in `[0, limit)`. */
  predicate Included(kernel: seq<real>, x: int, y: int, vertical: bool, limit: int, t: int) {
    var p := (if vertical then y else x) + Offset(kernel, t);
    0 <= p < limit
  }

  /** The pixel tap `t` reads: `At(x+dx, y)` across a row, `At(x, y+dy)` down a column. */
  function Source(img: Raster, kernel: seq<real>, x: int, y: int, vertical: bool, t: int): Color
    requires img.Valid()
  {
    if vertical then Pixel(img, x, y + Offset(kernel, t)) else Pixel(img, x + Offset(kernel, t), y)
  }

  /** Channel `i` (0 red, 1 green, anything else blue) as `c >> 8`. */
  function Channel(c: Color, i: int): Byte {
    Hi(if i == 0 then c.r else if i == 1 then c.g else c.b)
  }

  function SumOf(a: Acc, i: int): real {
    if i == 0 then a.r else if i == 1 then a.g else a.b
  }

  /** `sumR += float64(r>>8) * weight`, likewise for green and blue, and `kernelSum += weight`. */
  function AddTap(a: Acc, c: Color, weight: real): Acc {
    Acc(a.r + Hi(c.r) as real * weight, a.g + Hi(c.g) as real * weight, a.b + Hi(c.b) as real * weight,
        a.weight + weight)
  }

  lemma Weigh(v: Byte, wt: real)
    requires wt >= 0.0
    ensures 0.0 <= v as real * wt <= 255.0 * wt
  {
    ScaleLe(0.0, v as real, wt);
    ScaleLe(v as real, 255.0, wt);
  }

  lemma AddTapBounded(a: Acc, c: Color, weight: real)
    requires Bounded(a) && weight >= 0.0
    ensures Bounded(AddTap(a, c, weight))
  {
    var n := AddTap(a, c, weight);
    ChannelBounded(a.r, a.weight, Hi(c.r), weight, n.r, n.weight);
    ChannelBounded(a.g, a.weight, Hi(c.g), weight, n.g, n.weight);
    ChannelBounded(a.b, a.weight, Hi(c.b), weight, n.b, n.weight);
  }

  /** One channel of `AddTapBounded`. */
  lemma ChannelBounded(s: real, w: real, v: Byte, wt: real, s': real, w': real)
    requires 0.0 <= w && 0.0 <= s <= 255.0 * w && wt >= 0.0
    requires s' == s + v as real * wt && w' == w + wt
    ensures 0.0 <= w' && 0.0 <= s' <= 255.0 * w'
  {
    Weigh(v, wt);
    assert 255.0 * w' == 255.0 * w + 255.0 * wt;
  }

  /** The sums over the first `n` taps, skipping those the guard rejects. */
  function Taps(img: Raster, kernel: seq<real>, x: int, y: int, vertical: bool, limit: int, n: nat): (a: Acc)
    requires img.Valid() && n <= |kernel| && Positive(kernel)
    ensures Bounded(a)
  {
    if n == 0 then Acc(0.0, 0.0, 0.0, 0.0)
    else
      var a := Taps(img, kernel, x, y, vertical, limit, n - 1);
      if !Included(kernel, x, y, vertical, limit, n - 1) then a
      else
        var c := Source(img, kernel, x, y, vertical, n - 1);
        AddTapBounded(a, c, kernel[n - 1]);
        AddTap(a, c, kernel[n - 1])
  }

  /** `uint8(sum / kernelSum)`; a zero weight (no tap passed the guard) gives 0. */
  function Normalised(sum: real, weight: real): (v: Byte)
    requires 0.0 <= weight && 0.0 <= sum <= 255.0 * weight
  {
    if weight == 0.0 then 0
    else
      QuotientBetween(sum, weight, 0.0, 255.0);
      ToByte(sum / weight)
  }

  /** The colour a pass writes: normalised channels, alpha 255. */
  function PassPixel(a: Acc): Color
    requires Bounded(a)
  {
    Rgba(Normalised(a.r, a.weight), Normalised(a.g, a.weight), Normalised(a.b, a.weight), 255)
  }

  /** What a pass leaves at `(x, y)`: columns `[x0, x1)` are written, the rest stay zero. */
  function PassAt(img: Raster, kernel: seq<real>, vertical: bool, limit: int, x0: int, x1: int, x: int, y: int): Color
    requires img.Valid() && Positive(kernel)
  {
    if x0 <= x < x1 then PassPixel(Taps(img, kernel, x, y, vertical, limit, |kernel|)) else Transparent
  }

  /** One pass over a fresh canvas of the same bounds. */
  function Pass(img: Raster, kernel: seq<real>, vertical: bool, limit: int, x0: int, x1: int): (out: Raster)
    requires img.Valid() && Positive(kernel)
    ensures out.Valid() && out.width == img.width && out.height == img.height
    ensures forall y, x :: 0 <= y < img.height && 0 <= x < img.width ==>
      out.rows[y][x] == PassAt(img, kernel, vertical, limit, x0, x1, x, y)
  {
    Grid(img.width, img.height,
      seq(img.height, y => seq(img.width, x => PassAt(img, kernel, vertical, limit, x0, x1, x, y))))
  }

  // ------------------------------------------------------------------ passes

  /** The tap loop: `for dx := -k; dx <= k; dx++ { if out of range { continue } .. }`. */
  method AccumulateTaps(img: Raster, kernel: seq<real>, x: int, y: int, vertical: bool, limit: int) returns (a: Acc)
    requires img.Valid() && Positive(kernel)
    ensures a == Taps(img, kernel, x, y, vertical, limit, |kernel|)
  {
    a := Acc(0.0, 0.0, 0.0, 0.0);
    for t := 0 to |kernel|
      invariant a == Taps(img, kernel, x, y, vertical, limit, t)
    {
      if Included(kernel, x, y, vertical, limit, t) {
        var c := Source(img, kernel, x, y, vertical, t);
        var weight := kernel[t];
        a := AddTap(a, c, weight);
      }
    }
  }

  /** Row `y` of a pass: `for x := x0; x < x1; x++ { .. Set(x, y, ..) }`. */
  method PassRow(img: Raster, kernel: seq<real>, vertical: bool, limit: int, x0: int, x1: int, out0: Raster, y: int)
    returns (out: Raster)
    requires img.Valid() && Positive(kernel) && 0 <= x0 && x1 <= img.width && 0 <= y < img.height
    requires out0.Valid() && out0.width == img.width && out0.height == img.height
    requires forall j, i :: 0 <= j < img.height && 0 <= i < img.width ==>
      out0.rows[j][i] == if j < y then PassAt(img, kernel, vertical, limit, x0, x1, i, j) else Transparent
    ensures out.Valid() && out.width == img.width && out.height == img.height
    ensures forall j, i :: 0 <= j < img.height && 0 <= i < img.width ==>
      out.rows[j][i] == if j <= y then PassAt(img, kernel, vertical, limit, x0, x1, i, j) else Transparent
  {
    out := out0;
    var x := x0;
    while x < x1
      invariant x0 <= x && (x0 <= x1 ==> x <= x1)
      invariant out.Valid() && out.width == img.width && out.height == img.height
      invariant forall j, i :: 0 <= j < img.height && 0 <= i < img.width ==>
        out.rows[j][i] == if j < y || (j == y && i < x) then PassAt(img, kernel, vertical, limit, x0, x1, i, j) else Transparent
    {
      var a := AccumulateTaps(img, kernel, x, y, vertical, limit);
      out := out.Set(x, y, PassPixel(a));
      x := x + 1;
    }
  }

  /** A whole pass: `for y := 0; y < height; y++ { for x := x0; x < x1; x++ { .. } }`. */
  method BlurPass(img: Raster, kernel: seq<real>, vertical: bool, limit: int, x0: int, x1: int) returns (out: Raster)
    requires img.Valid() && Positive(kernel) && 0 <= x0 && x1 <= img.width
    ensures out == Pass(img, kernel, vertical, limit, x0, x1)
  {
    out := Fill(img.width, img.height, Transparent);
    for y := 0 to img.height
      invariant out.Valid() && out.width == img.width && out.height == img.height
      invariant forall j, i :: 0 <= j < img.height && 0 <= i < img.width ==>
        out.rows[j][i] == if j < y then PassAt(img, kernel, vertical, limit, x0, x1, i, j) else Transparent
    {
      out := PassRow(img, kernel, vertical, limit, x0, x1, out, y);
    }
    Extensionality(out, Pass(img, kernel, vertical, limit, x0, x1));
  }

  // ---------------------------------------------------------- FastGaussianBlur

  /** `FastGaussianBlur` as written: both passes write columns `[k, width-k)`,
      and the vertical guard tests `y+dy` against the width. */
  function FastSpec(img: Raster, kernel: seq<real>): (out: Raster)
    requires img.Valid() && Positive(kernel)
    ensures out.Valid() && out.width == img.width && out.height == img.height
  {
    var k := |kernel| / 2;
    var horizontal := Pass(img, kernel, false, img.width, k, img.width - k);
    Pass(horizontal, kernel, true, img.width, k, img.width - k)
  }

  method FastGaussianBlur(img: Raster, sigma: real, expOf: real -> real) returns (blurred: Raster)
    requires img.Valid() && sigma > 0.0 && PositiveExp(expOf)
    ensures var kernel := GaussianWeights(sigma, expOf); Positive(kernel) && blurred == FastSpec(img, kernel)
    ensures blurred.Valid() && blurred.width == img.width && blurred.height == img.height
    ensures forall y, x :: 0 <= y < img.height && 0 <= x < img.width ==>
      var k := Ceil(sigma * 3.0);
      (k <= x < img.width - k ==> blurred.rows[y][x].a == 65535) &&
      (!(k <= x < img.width - k) ==> blurred.rows[y][x] == Transparent)
  {
    var kernel := GaussianKernel(sigma, expOf);
    var kernelSize := |kernel| / 2;
    var horizontal := BlurPass(img, kernel, false, img.width, kernelSize, img.width - kernelSize);
    blurred := BlurPass(horizontal, kernel, true, img.width, kernelSize, img.width - kernelSize);
  }

  // ----------------------------------------------------- PolynomialGaussianBlur

  /** `PolynomialGaussianBlur`: raw weights of radius `ceil(3σ)`, a row pass over every column. */
  method PolynomialGaussianBlur(img: Raster, sigma: real, expOf: real -> real) returns (blurred: Raster)
    requires img.Valid() && sigma > 0.0 && PositiveExp(expOf)
    ensures var kernel := RawGaussian(2 * Ceil(sigma * 3.0) + 1, sigma, expOf);
      Positive(kernel) && blurred == Pass(img, kernel, false, img.width, 0, img.width)
    ensures blurred.Valid() && blurred.width == img.width && blurred.height == img.height
    ensures forall y, x :: 0 <= y < img.height && 0 <= x < img.width ==> blurred.rows[y][x].a == 65535
  {
    var kernel := PolynomialGaussianKernel(sigma, Ceil(sigma * 3.0), expOf);
    blurred := BlurPass(img, kernel, false, img.width, 0, img.width);
  }

  // ------------------------------------------------------------ properties

  /** Each channel sum lies between `lo` and `hi` times the weight when every
      tap that passes the guard has that channel in `[lo, hi]`. */
  lemma {:induction false} TapsBetween(img: Raster, kernel: seq<real>, x: int, y: int, vertical: bool, limit: int,
                                       n: nat, i: int, lo: int, hi: int)
    requires img.Valid() && n <= |kernel| && Positive(kernel)
    requires forall t :: 0 <= t < n && Included(kernel, x, y, vertical, limit, t) ==>
      lo <= Channel(Source(img, kernel, x, y, vertical, t), i) <= hi
    ensures Between(Taps(img, kernel, x, y, vertical, limit, n), i, lo, hi)
  {
    if n > 0 {
      TapsBetween(img, kernel, x, y, vertical, limit, n - 1, i, lo, hi);
      var a := Taps(img, kernel, x, y, vertical, limit, n - 1);
      if Included(kernel, x, y, vertical, limit, n - 1) {
        var c := Source(img, kernel, x, y, vertical, n - 1);
        assert Taps(img, kernel, x, y, vertical, limit, n) == AddTap(a, c, kernel[n - 1]);
        BetweenStep(a, c, kernel[n - 1], i, lo, hi);
      } else {
        assert Taps(img, kernel, x, y, vertical, limit, n) == a;
      }
    }
  }

  /** Channel `i` of the sums lies between `lo` and `hi` times the weight. */
  predicate Between(a: Acc, i: int, lo: int, hi: int) {
    lo as real * a.weight <= SumOf(a, i) <= hi as real * a.weight
  }

  /** Adding a tap whose channel lies in `[lo, hi]` keeps the sum between the bounds. */
  lemma BetweenStep(a: Acc, c: Color, wt: real, i: int, lo: int, hi: int)
    requires wt >= 0.0 && lo <= Channel(c, i) <= hi && Between(a, i, lo, hi)
    ensures Between(AddTap(a, c, wt), i, lo, hi)
  {
    var n := AddTap(a, c, wt);
    SumOfAddTap(a, c, wt, i);
    BetweenAdd(SumOf(a, i), a.weight, Channel(c, i) as real, wt, lo as real, hi as real, SumOf(n, i), n.weight);
  }

  /** Channel `i` of the sums grows by that channel of the tap times its weight. */
  lemma SumOfAddTap(a: Acc, c: Color, wt: real, i: int)
    ensures SumOf(AddTap(a, c, wt), i) == SumOf(a, i) + Channel(c, i) as real * wt
  {
    if i == 0 {
      assert Channel(c, i) == Hi(c.r);
    } else if i == 1 {
      assert Channel(c, i) == Hi(c.g);
    } else {
      assert Channel(c, i) == Hi(c.b);
    }
  }

  lemma BetweenAdd(s: real, w: real, v: real, wt: real, lo: real, hi: real, s': real, w': real)
    requires wt >= 0.0 && lo <= v <= hi && lo * w <= s <= hi * w
    requires s' == s + v * wt && w' == w + wt
    ensures lo * w' <= s' <= hi * w'
  {
    ScaleLe(lo, v, wt);
    ScaleLe(v, hi, wt);
    assert lo * (w + wt) == lo * w + lo * wt;
    assert hi * (w + wt) == hi * w + hi * wt;
  }

  /** An accepted tap contributes its weight. */
  lemma {:induction false} TapsWeightAtLeast(img: Raster, kernel: seq<real>, x: int, y: int, vertical: bool, limit: int,
                                             n: nat, t0: int)
    requires img.Valid() && n <= |kernel| && Positive(kernel)
    requires 0 <= t0 < n && Included(kernel, x, y, vertical, limit, t0)
    ensures Taps(img, kernel, x, y, vertical, limit, n).weight >= kernel[t0]
  {
    if t0 < n - 1 {
      TapsWeightAtLeast(img, kernel, x, y, vertical, limit, n - 1, t0);
    }
  }

  lemma NormalisedBetween(a: Acc, i: int, lo: int, hi: int)
    requires Bounded(a) && 0.0 < a.weight && Between(a, i, lo, hi)
    ensures 0.0 <= SumOf(a, i) <= 255.0 * a.weight
    ensures lo <= Normalised(SumOf(a, i), a.weight) <= hi
  {
    QuotientBetween(SumOf(a, i), a.weight, lo as real, hi as real);
  }

  lemma ChannelOfPassPixel(a: Acc, i: int)
    requires Bounded(a)
    ensures Channel(PassPixel(a), i) == Normalised(SumOf(a, i), a.weight)
  {
    HiWiden(Normalised(a.r, a.weight));
    HiWiden(Normalised(a.g, a.weight));
    HiWiden(Normalised(a.b, a.weight));
  }

  /** A row pass (the horizontal pass of `FastGaussianBlur`, and `PolynomialGaussianBlur`):
      every written channel lies between the least and the greatest value of
      that channel among the in-range taps, since rejected taps are skipped and
      the sum is divided by the weight actually accumulated. */
  lemma RowPassBetween(img: Raster, kernel: seq<real>, x0: int, x1: int, x: int, y: int, i: int, lo: int, hi: int)
    requires img.Valid() && Positive(kernel) && |kernel| >= 1
    requires 0 <= x0 <= x < x1 <= img.width && 0 <= y < img.height
    requires forall t :: 0 <= t < |kernel| && Included(kernel, x, y, false, img.width, t) ==>
      lo <= Channel(Source(img, kernel, x, y, false, t), i) <= hi
    ensures lo <= Channel(Pass(img, kernel, false, img.width, x0, x1).rows[y][x], i) <= hi
  {
    var a := Taps(img, kernel, x, y, false, img.width, |kernel|);
    TapsBetween(img, kernel, x, y, false, img.width, |kernel|, i, lo, hi);
    assert Included(kernel, x, y, false, img.width, |kernel| / 2);
    TapsWeightAtLeast(img, kernel, x, y, false, img.width, |kernel|, |kernel| / 2);
    NormalisedBetween(a, i, lo, hi);
    ChannelOfPassPixel(a, i);
    assert Pass(img, kernel, false, img.width, x0, x1).rows[y][x] == PassPixel(a);
  }

  /** Over a row whose in-range taps all have channel `i` equal to `v`,
      `PolynomialGaussianBlur` writes `v` back. */
  lemma PolynomialKeepsUniformRow(img: Raster, sigma: real, expOf: real -> real, x: int, y: int, i: int, v: Byte)
    requires img.Valid() && sigma > 0.0 && PositiveExp(expOf)
    requires 0 <= x < img.width && 0 <= y < img.height
    requires forall u :: 0 <= u < img.width ==> Channel(img.rows[y][u], i) == v
    ensures var kernel := RawGaussian(2 * Ceil(sigma * 3.0) + 1, sigma, expOf);
      Positive(kernel) && Channel(Pass(img, kernel, false, img.width, 0, img.width).rows[y][x], i) == v
  {
    var kernel := RawGaussian(2 * Ceil(sigma * 3.0) + 1, sigma, expOf);
    RawGaussianPositive(2 * Ceil(sigma * 3.0) + 1, sigma, expOf);
    forall t | 0 <= t < |kernel| && Included(kernel, x, y, false, img.width, t)
      ensures v <= Channel(Source(img, kernel, x, y, false, t), i) <= v
    {
      assert Source(img, kernel, x, y, false, t) == img.rows[y][x + Offset(kernel, t)];
    }
    RowPassBetween(img, kernel, 0, img.width, x, y, i, v, v);
  }

  /** Taps over an image with no colour sum to zero on every channel. */
  lemma {:induction false} TapsOfNoColor(img: Raster, kernel: seq<real>, x: int, y: int, vertical: bool, limit: int, n: nat)
    requires img.Valid() && n <= |kernel| && Positive(kernel) && NoColor(img)
    ensures var a := Taps(img, kernel, x, y, vertical, limit, n); a.r == 0.0 && a.g == 0.0 && a.b == 0.0
  {
    if n > 0 {
      TapsOfNoColor(img, kernel, x, y, vertical, limit, n - 1);
      NoColorPixel(img, kernel, x, y, vertical, n - 1);
    }
  }

  lemma NoColorPixel(img: Raster, kernel: seq<real>, x: int, y: int, vertical: bool, t: int)
    requires img.Valid() && NoColor(img)
    ensures var c := Source(img, kernel, x, y, vertical, t); c.r == 0 && c.g == 0 && c.b == 0
  {
  }

  /** A pass of an image with no colour has no colour. */
  lemma PassKeepsNoColor(img: Raster, kernel: seq<real>, vertical: bool, limit: int, x0: int, x1: int)
    requires img.Valid() && Positive(kernel) && NoColor(img)
    ensures NoColor(Pass(img, kernel, vertical, limit, x0, x1))
  {
    var out := Pass(img, kernel, vertical, limit, x0, x1);
    forall y, x | 0 <= y < img.height && 0 <= x < img.width
      ensures out.rows[y][x].r == 0 && out.rows[y][x].g == 0 && out.rows[y][x].b == 0
    {
      TapsOfNoColor(img, kernel, x, y, vertical, limit, |kernel|);
    }
  }

  /** `FastGaussianBlur` of an image whose red, green and blue are all zero
      (what `ExtractHighlights` yields above the brightest luminance) is again
      all zero on those channels. */
  lemma FastKeepsNoColor(img: Raster, kernel: seq<real>)
    requires img.Valid() && Positive(kernel) && NoColor(img)
    ensures NoColor(FastSpec(img, kernel))
  {
    var k := |kernel| / 2;
    PassKeepsNoColor(img, kernel, false, img.width, k, img.width - k);
    PassKeepsNoColor(Pass(img, kernel, false, img.width, k, img.width - k), kernel, true, img.width, k, img.width - k);
  }

  /** The vertical guard compares `y+dy` with the width: on a 3-wide, 1-high
      opaque white image with kernel `[1/4, 1/2, 1/4]`, the tap below the only
      row passes the guard, reads the zero colour and darkens the centre pixel
      to 170 instead of keeping 255. */
  lemma VerticalGuardUsesWidth()
    ensures var img := Grid(3, 1, [[White, White, White]]);
      var kernel := [0.25, 0.5, 0.25];
      Positive(kernel) && img.Valid() && Hi(FastSpec(img, kernel).rows[0][1].r) == 170
  {
    var img := Grid(3, 1, [[White, White, White]]);
    var kernel := [0.25, 0.5, 0.25];
    var horizontal := Pass(img, kernel, false, 3, 1, 2);
    WhiteRowCentre(img, kernel);
    var b := Taps(horizontal, kernel, 1, 0, true, 3, 3);
    DarkenedTaps(horizontal, kernel);
    assert FastSpec(img, kernel).rows[0][1] == PassPixel(b);
    assert Normalised(127.5, 0.75) == 170;
    HiWiden(170);
  }

  /** `FastGaussianBlur` with the vertical guard testing `y+dy` against the
      height, as the horizontal guard tests `x+dx` against the width. */
  function IntendedFastSpec(img: Raster, kernel: seq<real>): (out: Raster)
    requires img.Valid() && Positive(kernel)
    ensures out.Valid() && out.width == img.width && out.height == img.height
  {
    var k := |kernel| / 2;
    var horizontal := Pass(img, kernel, false, img.width, k, img.width - k);
    Pass(horizontal, kernel, true, img.height, k, img.width - k)
  }

  /** A column pass guarded by the height writes every channel between the
      least and the greatest value of that channel among its taps. */
  lemma ColumnPassBetween(img: Raster, kernel: seq<real>, x0: int, x1: int, x: int, y: int, i: int, lo: int, hi: int)
    requires img.Valid() && Positive(kernel) && |kernel| >= 1
    requires 0 <= x0 <= x < x1 <= img.width && 0 <= y < img.height
    requires forall t :: 0 <= t < |kernel| && Included(kernel, x, y, true, img.height, t) ==>
      lo <= Channel(Source(img, kernel, x, y, true, t), i) <= hi
    ensures lo <= Channel(Pass(img, kernel, true, img.height, x0, x1).rows[y][x], i) <= hi
  {
    var a := Taps(img, kernel, x, y, true, img.height, |kernel|);
    TapsBetween(img, kernel, x, y, true, img.height, |kernel|, i, lo, hi);
    assert Included(kernel, x, y, true, img.height, |kernel| / 2);
    TapsWeightAtLeast(img, kernel, x, y, true, img.height, |kernel|, |kernel| / 2);
    NormalisedBetween(a, i, lo, hi);
    ChannelOfPassPixel(a, i);
    assert Pass(img, kernel, true, img.height, x0, x1).rows[y][x] == PassPixel(a);
  }

  /** The intended blur keeps a uniform channel unchanged on every column it writes. */
  lemma IntendedFastKeepsUniform(img: Raster, kernel: seq<real>, i: int, v: Byte)
    requires img.Valid() && Positive(kernel) && |kernel| >= 1
    requires forall y, x :: 0 <= y < img.height && 0 <= x < img.width ==> Channel(img.rows[y][x], i) == v
    ensures forall y, x :: 0 <= y < img.height && |kernel| / 2 <= x < img.width - |kernel| / 2 ==>
      Channel(IntendedFastSpec(img, kernel).rows[y][x], i) == v
  {
    var k := |kernel| / 2;
    var horizontal := Pass(img, kernel, false, img.width, k, img.width - k);
    forall y, x | 0 <= y < img.height && k <= x < img.width - k
      ensures Channel(horizontal.rows[y][x], i) == v
    {
      RowPassBetween(img, kernel, k, img.width - k, x, y, i, v, v);
    }
    forall y, x | 0 <= y < img.height && k <= x < img.width - k
      ensures Channel(IntendedFastSpec(img, kernel).rows[y][x], i) == v
    {
      ColumnPassBetween(horizontal, kernel, k, img.width - k, x, y, i, v, v);
    }
  }

  /** On the 3 by 1 white image of `VerticalGuardUsesWidth` the intended blur keeps the centre white. */
  lemma IntendedKeepsWhiteRow()
    ensures var img := Grid(3, 1, [[White, White, White]]);
      var kernel := [0.25, 0.5, 0.25];
      Positive(kernel) && img.Valid() && Hi(IntendedFastSpec(img, kernel).rows[0][1].r) == 255
  {
    var img := Grid(3, 1, [[White, White, White]]);
    var kernel := [0.25, 0.5, 0.25];
    IntendedFastKeepsUniform(img, kernel, 0, 255);
  }

  lemma WhiteRowCentre(img: Raster, kernel: seq<real>)
    requires img == Grid(3, 1, [[White, White, White]]) && kernel == [0.25, 0.5, 0.25]
    ensures Positive(kernel) && img.Valid() && Pass(img, kernel, false, 3, 1, 2).rows[0][1] == White
  {
    assert Taps(img, kernel, 1, 0, false, 3, 1) == Acc(63.75, 63.75, 63.75, 0.25);
    assert Taps(img, kernel, 1, 0, false, 3, 2) == Acc(191.25, 191.25, 191.25, 0.75);
    assert Taps(img, kernel, 1, 0, false, 3, 3) == Acc(255.0, 255.0, 255.0, 1.0);
  }

  lemma DarkenedTaps(horizontal: Raster, kernel: seq<real>)
    requires horizontal.Valid() && horizontal.width == 3 && horizontal.height == 1
    requires horizontal.rows[0][1] == White && kernel == [0.25, 0.5, 0.25]
    ensures Positive(kernel) && Taps(horizontal, kernel, 1, 0, true, 3, 3) == Acc(127.5, 127.5, 127.5, 0.75)
  {
    assert Taps(horizontal, kernel, 1, 0, true, 3, 1) == Acc(0.0, 0.0, 0.0, 0.0);
    assert Taps(horizontal, kernel, 1, 0, true, 3, 2) == Acc(127.5, 127.5, 127.5, 0.5);
    assert Source(horizontal, kernel, 1, 0, true, 2) == Transparent;
  }

  // ------------------------------------------------------- PerfectGaussianBlur

  /** The running sum and weight of the two-dimensional tap loops. */
  datatype GrayAcc = GrayAcc(sum: real, weight: real)

  predicate GrayBounded(a: GrayAcc) {
    0.0 <= a.weight && 0.0 <= a.sum <= 255.0 * a.weight
  }

  /** `GetLuminance(c) / 65535.0 * 255`. */
  function Gray8(c: Color): (g: real)
    ensures 0.0 <= g <= 255.0
  {
    GetLuminance(c) / 65535.0 * 255.0
  }

  lemma WeighReal(v: real, wt: real)
    requires 0.0 <= v <= 255.0 && wt >= 0.0
    ensures 0.0 <= v * wt <= 255.0 * wt
  {
    ScaleLe(0.0, v, wt);
    ScaleLe(v, 255.0, wt);
  }

  lemma ProductPositive(a: real, b: real)
    requires a > 0.0 && b > 0.0
    ensures a * b > 0.0
  {
  }

  /** `sum += float64(gray) * weight; kernel_sum += weight`. */
  function AddGray(a: GrayAcc, gray: real, weight: real): GrayAcc {
    GrayAcc(a.sum + gray * weight, a.weight + weight)
  }

  lemma AddGrayBounded(a: GrayAcc, gray: real, weight: real)
    requires GrayBounded(a) && 0.0 <= gray <= 255.0 && weight >= 0.0
    ensures GrayBounded(AddGray(a, gray, weight)) && AddGray(a, gray, weight).weight >= a.weight
  {
    WeighReal(gray, weight);
  }

  /** The inner loop over `dx` for row offset `tdy`, continuing from `acc`. */
  function RowTaps(acc: GrayAcc, img: Raster, kernel: seq<real>, x: int, y: int, tdy: int, n: nat): (a: GrayAcc)
    requires img.Valid() && Positive(kernel) && 0 <= tdy < |kernel| && n <= |kernel| && GrayBounded(acc)
    ensures GrayBounded(a) && a.weight >= acc.weight
  {
    if n == 0 then acc
    else
      var a := RowTaps(acc, img, kernel, x, y, tdy, n - 1);
      var weight := kernel[tdy] * kernel[n - 1];
      var gray := Gray8(Pixel(img, x + Offset(kernel, n - 1), y + Offset(kernel, tdy)));
      ProductPositive(kernel[tdy], kernel[n - 1]);
      AddGrayBounded(a, gray, weight);
      AddGray(a, gray, weight)
  }

  lemma RowTapsStep(acc: GrayAcc, img: Raster, kernel: seq<real>, x: int, y: int, tdy: int, n: nat)
    requires img.Valid() && Positive(kernel) && 0 <= tdy < |kernel| && n < |kernel| && GrayBounded(acc)
    ensures RowTaps(acc, img, kernel, x, y, tdy, n + 1) ==
      AddGray(RowTaps(acc, img, kernel, x, y, tdy, n), Gray8(Pixel(img, x + Offset(kernel, n), y + Offset(kernel, tdy))),
              kernel[tdy] * kernel[n])
  {
  }

  /** The outer loop over `dy`: rows `0 .. m-1` of the kernel square. */
  function GridTaps(img: Raster, kernel: seq<real>, x: int, y: int, m: nat): (a: GrayAcc)
    requires img.Valid() && Positive(kernel) && m <= |kernel|
    ensures GrayBounded(a)
  {
    if m == 0 then GrayAcc(0.0, 0.0)
    else RowTaps(GridTaps(img, kernel, x, y, m - 1), img, kernel, x, y, m - 1, |kernel|)
  }

  /** Pixel `(x, y)` of `PerfectGaussianBlur`: written for `x < width-k` and `y < height-k`. */
  function PerfectAt(img: Raster, kernel: seq<real>, x: int, y: int): Byte
    requires img.Valid() && Positive(kernel)
  {
    var k := |kernel| / 2;
    if x < img.width - k && y < img.height - k then
      var a := GridTaps(img, kernel, x, y, |kernel|);
      Normalised(a.sum, a.weight)
    else 0
  }

  function PerfectSpec(img: Raster, kernel: seq<real>): (out: GrayImage)
    requires img.Valid() && Positive(kernel)
    ensures out.Valid() && out.width == img.width && out.height == img.height
    ensures forall y, x :: 0 <= y < img.height && 0 <= x < img.width ==> out.rows[y][x] == PerfectAt(img, kernel, x, y)
  {
    Grid(img.width, img.height, seq(img.height, y => seq(img.width, x => PerfectAt(img, kernel, x, y))))
  }

  /** The inner loop over `dx` for one row offset `tdy`. */
  method AccumulateRow(acc: GrayAcc, img: Raster, kernel: seq<real>, x: int, y: int, tdy: int) returns (a: GrayAcc)
    requires img.Valid() && Positive(kernel) && 0 <= tdy < |kernel| && GrayBounded(acc)
    ensures a == RowTaps(acc, img, kernel, x, y, tdy, |kernel|)
  {
    a := acc;
    for tdx := 0 to |kernel|
      invariant a == RowTaps(acc, img, kernel, x, y, tdy, tdx)
    {
      var weight := kernel[tdy] * kernel[tdx];
      var gray := Gray8(Pixel(img, x + Offset(kernel, tdx), y + Offset(kernel, tdy)));
      RowTapsStep(acc, img, kernel, x, y, tdy, tdx);
      a := AddGray(a, gray, weight);
    }
  }

  /** The two tap loops of one pixel. */
  method AccumulateSquare(img: Raster, kernel: seq<real>, x: int, y: int) returns (a: GrayAcc)
    requires img.Valid() && Positive(kernel)
    ensures a == GridTaps(img, kernel, x, y, |kernel|)
  {
    a := GrayAcc(0.0, 0.0);
    for tdy := 0 to |kernel|
      invariant a == GridTaps(img, kernel, x, y, tdy)
    {
      a := AccumulateRow(a, img, kernel, x, y, tdy);
    }
  }

  method PerfectRow(img: Raster, kernel: seq<real>, out0: GrayImage, y: int) returns (out: GrayImage)
    requires img.Valid() && Positive(kernel) && 0 <= y < img.height
    requires out0.Valid() && out0.width == img.width && out0.height == img.height
    requires forall j, i :: 0 <= j < img.height && 0 <= i < img.width ==>
      out0.rows[j][i] == if j < y then PerfectAt(img, kernel, i, j) else 0
    requires y < img.height - |kernel| / 2
    ensures out.Valid() && out.width == img.width && out.height == img.height
    ensures forall j, i :: 0 <= j < img.height && 0 <= i < img.width ==>
      out.rows[j][i] == if j <= y then PerfectAt(img, kernel, i, j) else 0
  {
    out := out0;
    var x := 0;
    while x < img.width - |kernel| / 2
      invariant 0 <= x
      invariant out.Valid() && out.width == img.width && out.height == img.height
      invariant forall j, i :: 0 <= j < img.height && 0 <= i < img.width ==>
        out.rows[j][i] == if j < y || (j == y && i < x) then PerfectAt(img, kernel, i, j) else 0
    {
      var a := AccumulateSquare(img, kernel, x, y);
      out := out.Set(x, y, Normalised(a.sum, a.weight));
      x := x + 1;
    }
  }

  /** `PerfectGaussianBlur`: a grey canvas, pixels with `x < width-k`, `y < height-k` written. */
  method PerfectGaussianBlur(img: Raster, sigma: real, expOf: real -> real) returns (blurred: GrayImage)
    requires img.Valid() && sigma > 0.0 && PositiveExp(expOf)
    ensures var kernel := GaussianWeights(sigma, expOf); Positive(kernel) && blurred == PerfectSpec(img, kernel)
    ensures blurred.Valid() && blurred.width == img.width && blurred.height == img.height
    ensures forall y, x :: 0 <= y < img.height && 0 <= x < img.width ==>
      var k := Ceil(sigma * 3.0);
      (x >= img.width - k || y >= img.height - k) ==> blurred.rows[y][x] == 0
  {
    var kernel := GaussianKernel(sigma, expOf);
    var kernelSize := |kernel| / 2;
    blurred := Fill(img.width, img.height, 0);
    var y := 0;
    while y < img.height - kernelSize
      invariant 0 <= y
      invariant blurred.Valid() && blurred.width == img.width && blurred.height == img.height
      invariant forall j, i :: 0 <= j < img.height && 0 <= i < img.width ==>
        blurred.rows[j][i] == if j < y then PerfectAt(img, kernel, i, j) else 0
    {
      blurred := PerfectRow(img, kernel, blurred, y);
      y := y + 1;
    }
    Extensionality(blurred, PerfectSpec(img, kernel));
  }

  /** The two-dimensional tap sums of an image with no colour are zero. */
  lemma {:induction false} RowTapsOfNoColor(acc: GrayAcc, img: Raster, kernel: seq<real>, x: int, y: int, tdy: int, n: nat)
    requires img.Valid() && Positive(kernel) && 0 <= tdy < |kernel| && n <= |kernel| && GrayBounded(acc)
    requires NoColor(img) && acc.sum == 0.0
    ensures RowTaps(acc, img, kernel, x, y, tdy, n).sum == 0.0
  {
    if n > 0 {
      RowTapsOfNoColor(acc, img, kernel, x, y, tdy, n - 1);
    }
  }

  lemma {:induction false} GridTapsOfNoColor(img: Raster, kernel: seq<real>, x: int, y: int, m: nat)
    requires img.Valid() && Positive(kernel) && m <= |kernel| && NoColor(img)
    ensures GridTaps(img, kernel, x, y, m).sum == 0.0
  {
    if m > 0 {
      GridTapsOfNoColor(img, kernel, x, y, m - 1);
      RowTapsOfNoColor(GridTaps(img, kernel, x, y, m - 1), img, kernel, x, y, m - 1, |kernel|);
    }
  }

  /** `PerfectGaussianBlur` of an image with no colour is black everywhere. */
  lemma PerfectOfNoColor(img: Raster, kernel: seq<real>)
    requires img.Valid() && Positive(kernel) && NoColor(img)
    ensures forall y, x :: 0 <= y < img.height && 0 <= x < img.width ==> PerfectSpec(img, kernel).rows[y][x] == 0
  {
    forall y, x | 0 <= y < img.height && 0 <= x < img.width
      ensures PerfectAt(img, kernel, x, y) == 0
    {
      GridTapsOfNoColor(img, kernel, x, y, |kernel|);
    }
  }
}
