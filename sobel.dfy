/** `cmd/sobel_filter.go`: the Sobel angle map, its quantisation and the edge
    colours.

    The source runs one goroutine per row chunk; here the chunks run one after
    another, which gives the same map because the chunks write disjoint rows.
    `math.Sqrt` and `math.Atan2(y, x) / math.Pi` are the parameters `root` and
    `atan`. */
module Sobel {
  import opened GoNumeric
  import opened Grids
  import opened Pixels
  import opened ColorUtils

  /** An angle-map entry: NaN, or a float holding a whole number of degrees. */
  datatype Angle = Undefined | Deg(d: int)

  predicate IsLineClass(a: Angle) {
    a.Deg? && (a.d == 0 || a.d == 45 || a.d == 90 || a.d == 135)
  }

  /** `quantizeAngle` on an angle normalised to [-1, 1] (a multiple of pi). */
  function QuantizeAngle(a: real): (q: Angle)
    ensures IsLineClass(q)
  {
    if (-1.0 / 8.0 <= a <= 1.0 / 8.0) || (a >= 7.0 / 8.0 || a <= -7.0 / 8.0) then Deg(0)
    else if (1.0 / 8.0 < a <= 3.0 / 8.0) || (-7.0 / 8.0 < a <= -5.0 / 8.0) then Deg(45)
    else if (3.0 / 8.0 < a <= 5.0 / 8.0) || (-5.0 / 8.0 < a <= -3.0 / 8.0) then Deg(90)
    else if (5.0 / 8.0 < a <= 7.0 / 8.0) || (-3.0 / 8.0 < a <= -1.0 / 8.0) then Deg(135)
    else Undefined
  }

  /** Opposite gradient directions fall into the same line class, breakpoints included. */
  lemma QuantizeAntipodal(a: real)
    requires 0.0 < a <= 1.0
    ensures QuantizeAngle(a) == QuantizeAngle(a - 1.0)
  {
  }

  /** `getEdgeDirection`: a float switch, so NaN and any other value give black. */
  function EdgeDirection(a: Angle): (c: Color)
    ensures a == Deg(0) ==> c == Rgba(0, 255, 0, 255)
    ensures a == Deg(45) ==> c == Rgba(255, 255, 0, 255)
    ensures a == Deg(90) ==> c == Rgba(255, 0, 0, 255)
    ensures a == Deg(135) ==> c == Rgba(0, 0, 255, 255)
    ensures !IsLineClass(a) ==> c == Black
  {
    match a
    case Deg(0) => Rgba(0, 255, 0, 255)
    case Deg(45) => Rgba(255, 255, 0, 255)
    case Deg(90) => Rgba(255, 0, 0, 255)
    case Deg(135) => Rgba(0, 0, 255, 255)
    case _ => Black
  }

  // ------------------------------------------------------------ row chunks

  /** `chunks := (height + numWorkers - 1) / numWorkers`. */
  function ChunkSize(height: nat, numWorkers: int): nat
    requires numWorkers >= 1
  {
    (height + numWorkers - 1) / numWorkers
  }

  function ChunkStart(worker: int, c: int): int { Max(worker * c, 1) }
  function ChunkEnd(worker: int, c: int, height: int): int { Min((worker + 1) * c, height - 1) }

  predicate InChunk(height: nat, numWorkers: int, worker: int, y: int)
    requires numWorkers >= 1
  {
    var c := ChunkSize(height, numWorkers);
    ChunkStart(worker, c) <= y < ChunkEnd(worker, c, height)
  }

  /** The chunks cover every row: `numWorkers * chunks >= height`. */
  lemma {:induction false} ChunksCoverHeight(height: nat, numWorkers: int)
    requires numWorkers >= 1
    ensures numWorkers * ChunkSize(height, numWorkers) >= height
  {
    var c := ChunkSize(height, numWorkers);
    var s := height + numWorkers - 1;
    assert s == numWorkers * c + s % numWorkers;
  }

  /** The worker whose range holds row `y`. */
  function ChunkOf(height: nat, numWorkers: int, y: int): int
    requires numWorkers >= 1 && 1 <= y < height - 1
  {
    y / ChunkSize(height, numWorkers)
  }

  /** Every interior row lies in the range of some worker. */
  lemma {:induction false} ChunkOfCovers(height: nat, numWorkers: int, y: int)
    requires numWorkers >= 1 && 1 <= y < height - 1
    ensures 0 <= ChunkOf(height, numWorkers, y) < numWorkers
    ensures InChunk(height, numWorkers, ChunkOf(height, numWorkers, y), y)
  {
    var c := ChunkSize(height, numWorkers);
    assert c >= 1 by {
      assert height + numWorkers - 1 >= numWorkers;
    }
    var worker := y / c;
    assert worker * c <= y < (worker + 1) * c;
    ChunksCoverHeight(height, numWorkers);
    if worker >= numWorkers {
      MulMonotone(numWorkers, worker, c);
      assert false;
    }
  }

  /** No row lies in the ranges of two workers. */
  lemma {:induction false} ChunksDisjoint(height: nat, numWorkers: int, w1: int, w2: int, y: int)
    requires numWorkers >= 1
    requires InChunk(height, numWorkers, w1, y) && InChunk(height, numWorkers, w2, y)
    ensures w1 == w2
  {
    var c := ChunkSize(height, numWorkers);
    if w1 < w2 {
      MulMonotone(w1 + 1, w2, c);
    } else if w2 < w1 {
      MulMonotone(w2 + 1, w1, c);
    }
  }

  /** The worker ranges are pairwise disjoint and their union is exactly the
      interior rows `[1, height - 1)`. */
  lemma ChunksPartitionInterior(height: nat, numWorkers: int)
    requires numWorkers >= 1
    ensures forall worker, y :: 0 <= worker < numWorkers && InChunk(height, numWorkers, worker, y) ==>
      1 <= y < height - 1
    ensures forall y :: 1 <= y < height - 1 ==>
      0 <= ChunkOf(height, numWorkers, y) < numWorkers &&
      InChunk(height, numWorkers, ChunkOf(height, numWorkers, y), y)
    ensures forall w1, w2, y ::
      (InChunk(height, numWorkers, w1, y) && InChunk(height, numWorkers, w2, y)) ==> w1 == w2
  {
    forall y | 1 <= y < height - 1
      ensures 0 <= ChunkOf(height, numWorkers, y) < numWorkers &&
        InChunk(height, numWorkers, ChunkOf(height, numWorkers, y), y)
    {
      ChunkOfCovers(height, numWorkers, y);
    }
    forall w1, w2, y | InChunk(height, numWorkers, w1, y) && InChunk(height, numWorkers, w2, y)
      ensures w1 == w2
    {
      ChunksDisjoint(height, numWorkers, w1, w2, y);
    }
  }

  // ------------------------------------------------------------ convolution

  const GX: seq<seq<real>> := [[1.0, 0.0, -1.0], [2.0, 0.0, -2.0], [1.0, 0.0, -1.0]]
  const GY: seq<seq<real>> := [[1.0, 2.0, 1.0], [0.0, 0.0, 0.0], [-1.0, -2.0, -1.0]]

  /** The weight the source reads as `Gx[dx+1][dy+1]` (or `Gy[dx+1][dy+1]`): the
      first index is the column offset, so `Gx` weighs rows and `Gy` columns. */
  function Weight(vertical: bool, dx: int, dy: int): real
    requires -1 <= dx <= 1 && -1 <= dy <= 1
  {
    if vertical then SobelTap(dx, dy) else SobelTap(dy, dx)
  }

  /** The Sobel weight for offset `across` across the edge and `along` it. */
  function SobelTap(across: int, along: int): real {
    if across == 0 then 0.0
    else if along == 0 then (if across < 0 then 2.0 else -2.0)
    else (if across < 0 then 1.0 else -1.0)
  }

  /** `Weight` is exactly the tables `Gx` and `Gy` indexed as the source indexes them. */
  lemma WeightsAreSobelTables(dx: int, dy: int)
    requires -1 <= dx <= 1 && -1 <= dy <= 1
    ensures Weight(false, dx, dy) == GX[dx + 1][dy + 1]
    ensures Weight(true, dx, dy) == GY[dx + 1][dy + 1]
  {
  }

  /** `GetLuminance(At(x, y)) / 65535 * 255`. */
  function Lum8(src: Raster, x: int, y: int): real
    requires src.Valid()
  {
    GetLuminance(Pixel(src, x, y)) / 65535.0 * 255.0
  }

  /** One tap: `int(lum * G[dx+1][dy+1])`. */
  function Term(src: Raster, x: int, y: int, vertical: bool, dx: int, dy: int): int
    requires src.Valid() && -1 <= dx <= 1 && -1 <= dy <= 1
  {
    Trunc(Lum8(src, x + dx, y + dy) * Weight(vertical, dx, dy))
  }

  /** The first `cols` taps (`dx = -1, 0, 1`) of row offset `dy`. */
  function RowSum(src: Raster, x: int, y: int, vertical: bool, dy: int, cols: nat): int
    requires src.Valid() && -1 <= dy <= 1 && cols <= 3
  {
    var left := Term(src, x, y, vertical, -1, dy);
    if cols == 0 then 0
    else if cols == 1 then left
    else if cols == 2 then left + Term(src, x, y, vertical, 0, dy)
    else left + Term(src, x, y, vertical, 0, dy) + Term(src, x, y, vertical, 1, dy)
  }

  /** The first `rows` full rows (`dy = -1, 0, 1`). */
  function RowsSum(src: Raster, x: int, y: int, vertical: bool, rows: nat): int
    requires src.Valid() && rows <= 3
  {
    var top := RowSum(src, x, y, vertical, -1, 3);
    if rows == 0 then 0
    else if rows == 1 then top
    else if rows == 2 then top + RowSum(src, x, y, vertical, 0, 3)
    else top + RowSum(src, x, y, vertical, 0, 3) + RowSum(src, x, y, vertical, 1, 3)
  }

  /** `pixel_x` (or `pixel_y` when `vertical`) at `(x, y)`. */
  function Conv(src: Raster, x: int, y: int, vertical: bool): int
    requires src.Valid()
  {
    RowsSum(src, x, y, vertical, 3)
  }

  /** The two nested tap loops of the source. */
  method Convolve(src: Raster, x: int, y: int) returns (px: int, py: int)
    requires src.Valid()
    ensures px == Conv(src, x, y, false) && py == Conv(src, x, y, true)
  {
    px, py := 0, 0;
    var dy := -1;
    while dy < 2
      invariant -1 <= dy <= 2
      invariant px == RowsSum(src, x, y, false, dy + 1)
      invariant py == RowsSum(src, x, y, true, dy + 1)
    {
      var dx := -1;
      while dx < 2
        invariant -1 <= dx <= 2
        invariant px == RowsSum(src, x, y, false, dy + 1) + RowSum(src, x, y, false, dy, dx + 1)
        invariant py == RowsSum(src, x, y, true, dy + 1) + RowSum(src, x, y, true, dy, dx + 1)
      {
        px := px + Term(src, x, y, false, dx, dy);
        py := py + Term(src, x, y, true, dx, dy);
        dx := dx + 1;
      }
      dy := dy + 1;
    }
  }

  /** A square root that is exact on the non-negative integers. */
  ghost predicate ExactRoot(root: int -> real) {
    forall n: int :: 0 <= n ==> 0.0 <= root(n) && root(n) * root(n) == n as real
  }

  /** `min(255, int(math.Sqrt(n)))`. */
  function Magnitude(n: int, root: int -> real): int {
    Min(255, Trunc(root(n)))
  }

  /** The entry computed for an interior pixel. */
  function SobelEntry(src: Raster, x: int, y: int, root: int -> real, atan: (int, int) -> real): Angle
    requires src.Valid()
  {
    var px := Conv(src, x, y, false);
    var py := Conv(src, x, y, true);
    if Magnitude(px * px + py * py, root) >= 50 then QuantizeAngle(atan(py, px)) else Undefined
  }

  predicate Interior(w: int, h: int, x: int, y: int) {
    1 <= x < w - 1 && 1 <= y < h - 1
  }

  /** The finished angle map: border entries keep the 0.0 of `make`. */
  function AngleMapSpec(src: Raster, root: int -> real, atan: (int, int) -> real): (m: Grid<Angle>)
    requires src.Valid()
    ensures m.Valid() && m.width == src.width && m.height == src.height
  {
    Grid(src.width, src.height, seq(src.height, y =>
      seq(src.width, x =>
        if Interior(src.width, src.height, x, y) then SobelEntry(src, x, y, root, atan) else Deg(0))))
  }

  /** The magnitude test is the integer test `n >= 2500` when the root is exact. */
  lemma {:induction false} ThresholdIsIntegerTest(n: int, root: int -> real)
    requires 0 <= n && 0.0 <= root(n) && root(n) * root(n) == n as real
    ensures Magnitude(n, root) >= 50 <==> n >= 2500
  {
    var s := root(n);
    if s >= 50.0 {
      ScaleLe(50.0, s, s);
      assert 50.0 * s <= s * s;
      assert 2500.0 <= s * s;
    } else {
      ScaleLe(s, 50.0, s);
      assert s * s <= 50.0 * s;
      assert s * s < 2500.0;
      assert Trunc(s) <= 49;
    }
  }

  /** An interior entry is defined exactly when `pixel_x^2 + pixel_y^2 >= 2500`. */
  lemma EntryDefinedIff(src: Raster, x: int, y: int, root: int -> real, atan: (int, int) -> real)
    requires src.Valid() && ExactRoot(root)
    ensures SobelEntry(src, x, y, root, atan) != Undefined <==>
      Conv(src, x, y, false) * Conv(src, x, y, false) + Conv(src, x, y, true) * Conv(src, x, y, true) >= 2500
  {
    var px := Conv(src, x, y, false);
    var py := Conv(src, x, y, true);
    var n := SumOfSquares(px, py);
    RootAt(root, n);
    ThresholdIsIntegerTest(n, root);
  }

  /** `a*a + b*b`, never negative. */
  function SumOfSquares(a: int, b: int): (n: nat)
    ensures n == a * a + b * b
  {
    assert a * a >= 0 && b * b >= 0;
    a * a + b * b
  }

  /** An exact root at one argument. */
  lemma RootAt(root: int -> real, n: nat)
    requires ExactRoot(root)
    ensures 0.0 <= root(n) && root(n) * root(n) == n as real
  {
  }

  /** The luminance is the same at all nine taps around `(x, y)`. */
  predicate ConstantNeighbourhood(src: Raster, x: int, y: int)
    requires src.Valid()
  {
    forall i, j :: x - 1 <= i <= x + 1 && y - 1 <= j <= y + 1 ==> Lum8(src, i, j) == Lum8(src, x, y)
  }

  /** Two taps of equal luminance and opposite weights cancel, since `int(-v) == -int(v)`. */
  lemma {:induction false} TapsCancel(src: Raster, x: int, y: int, vertical: bool, dx1: int, dy1: int, dx2: int, dy2: int)
    requires src.Valid() && -1 <= dx1 <= 1 && -1 <= dy1 <= 1 && -1 <= dx2 <= 1 && -1 <= dy2 <= 1
    requires Lum8(src, x + dx1, y + dy1) == Lum8(src, x + dx2, y + dy2)
    requires Weight(vertical, dx2, dy2) == -Weight(vertical, dx1, dy1)
    ensures Term(src, x, y, vertical, dx1, dy1) + Term(src, x, y, vertical, dx2, dy2) == 0
  {
    var l := Lum8(src, x + dx1, y + dy1);
    var w := Weight(vertical, dx1, dy1);
    assert l * -w == -(l * w);
    TruncOdd(l * w);
  }

  /** A tap of weight zero contributes nothing. */
  lemma ZeroTap(src: Raster, x: int, y: int, vertical: bool, dx: int, dy: int)
    requires src.Valid() && -1 <= dx <= 1 && -1 <= dy <= 1 && Weight(vertical, dx, dy) == 0.0
    ensures Term(src, x, y, vertical, dx, dy) == 0
  {
  }

  /** A flat neighbourhood has no gradient: the taps cancel in pairs. */
  lemma {:induction false} ConstantNeighbourhoodHasNoGradient(src: Raster, x: int, y: int)
    requires src.Valid() && ConstantNeighbourhood(src, x, y)
    ensures Conv(src, x, y, false) == 0 && Conv(src, x, y, true) == 0
  {
    var v := Lum8(src, x, y);
    assert Lum8(src, x - 1, y - 1) == v && Lum8(src, x, y - 1) == v && Lum8(src, x + 1, y - 1) == v;
    assert Lum8(src, x - 1, y) == v && Lum8(src, x + 1, y) == v;
    assert Lum8(src, x - 1, y + 1) == v && Lum8(src, x, y + 1) == v && Lum8(src, x + 1, y + 1) == v;
    // Gx weighs the row above against the row below.
    TapsCancel(src, x, y, false, -1, -1, -1, 1);
    TapsCancel(src, x, y, false, 0, -1, 0, 1);
    TapsCancel(src, x, y, false, 1, -1, 1, 1);
    ZeroTap(src, x, y, false, -1, 0);
    ZeroTap(src, x, y, false, 0, 0);
    ZeroTap(src, x, y, false, 1, 0);
    // Gy weighs the column to the left against the column to the right.
    TapsCancel(src, x, y, true, -1, -1, 1, -1);
    TapsCancel(src, x, y, true, -1, 0, 1, 0);
    TapsCancel(src, x, y, true, -1, 1, 1, 1);
    ZeroTap(src, x, y, true, 0, -1);
    ZeroTap(src, x, y, true, 0, 0);
    ZeroTap(src, x, y, true, 0, 1);
  }

  /** Hence its entry is NaN. */
  lemma ConstantNeighbourhoodIsUndefined(src: Raster, x: int, y: int, root: int -> real, atan: (int, int) -> real)
    requires src.Valid() && ExactRoot(root) && ConstantNeighbourhood(src, x, y)
    ensures SobelEntry(src, x, y, root, atan) == Undefined
  {
    ConstantNeighbourhoodHasNoGradient(src, x, y);
    NoGradientIsUndefined(src, x, y, root, atan);
  }

  /** A zero gradient has magnitude 0, below the threshold. */
  lemma NoGradientIsUndefined(src: Raster, x: int, y: int, root: int -> real, atan: (int, int) -> real)
    requires src.Valid() && ExactRoot(root)
    requires Conv(src, x, y, false) == 0 && Conv(src, x, y, true) == 0
    ensures SobelEntry(src, x, y, root, atan) == Undefined
  {
    EntryDefinedIff(src, x, y, root, atan);
    assert SumOfSquares(Conv(src, x, y, false), Conv(src, x, y, true)) == SumOfSquares(0, 0) == 0;
  }

  /** One row of the worker loop: columns `1 .. width-2` of row `y`. */
  method FillRow(src: Raster, angleMap: Grid<Angle>, y: int, root: int -> real, atan: (int, int) -> real)
    returns (m: Grid<Angle>)
    requires src.Valid() && angleMap.Valid()
    requires angleMap.width == src.width && angleMap.height == src.height && 0 <= y < src.height
    ensures m.Valid() && m.width == src.width && m.height == src.height
    ensures forall j, i :: 0 <= j < src.height && 0 <= i < src.width ==>
      m.rows[j][i] == if j == y && 1 <= i < src.width - 1 then SobelEntry(src, i, j, root, atan) else angleMap.rows[j][i]
  {
    m := angleMap;
    var x := 1;
    while x < src.width - 1
      invariant 1 <= x && (x <= src.width - 1 || x == 1)
      invariant m.Valid() && m.width == src.width && m.height == src.height
      invariant forall j, i :: 0 <= j < src.height && 0 <= i < src.width ==>
        m.rows[j][i] == if j == y && 1 <= i < x then SobelEntry(src, i, j, root, atan) else angleMap.rows[j][i]
    {
      var px, py := Convolve(src, x, y);
      var magnitude := Min(255, Trunc(root(px * px + py * py)));
      var angle := atan(py, px);
      if magnitude >= 50 {
        m := m.Set(x, y, QuantizeAngle(angle));
      } else {
        m := m.Set(x, y, Undefined);
      }
      x := x + 1;
    }
  }

  /** One worker: rows `startY .. endY-1`. */
  method FillChunk(src: Raster, angleMap: Grid<Angle>, startY: int, endY: int, root: int -> real, atan: (int, int) -> real)
    returns (m: Grid<Angle>)
    requires src.Valid() && angleMap.Valid()
    requires angleMap.width == src.width && angleMap.height == src.height
    requires 1 <= startY && endY <= src.height - 1
    ensures m.Valid() && m.width == src.width && m.height == src.height
    ensures forall j, i :: 0 <= j < src.height && 0 <= i < src.width ==>
      m.rows[j][i] == if startY <= j < endY && 1 <= i < src.width - 1 then SobelEntry(src, i, j, root, atan) else angleMap.rows[j][i]
  {
    m := angleMap;
    var y := startY;
    while y < endY
      invariant startY <= y && (y <= endY || y == startY)
      invariant m.Valid() && m.width == src.width && m.height == src.height
      invariant forall j, i :: 0 <= j < src.height && 0 <= i < src.width ==>
        m.rows[j][i] == if startY <= j < y && 1 <= i < src.width - 1 then SobelEntry(src, i, j, root, atan) else angleMap.rows[j][i]
    {
      m := FillRow(src, m, y, root, atan);
      y := y + 1;
    }
  }

  /** `getSobelFilter`'s angle map, one worker's chunk after another. */
  method GetSobelFilter(src: Raster, numWorkers: int, root: int -> real, atan: (int, int) -> real)
    returns (angleMap: Grid<Angle>)
    requires src.Valid() && numWorkers >= 1
    ensures angleMap == AngleMapSpec(src, root, atan)
    ensures forall y, x :: 0 <= y < src.height && 0 <= x < src.width ==>
      angleMap.rows[y][x] == if Interior(src.width, src.height, x, y) then SobelEntry(src, x, y, root, atan) else Deg(0)
  {
    var width: int, height: int := src.width, src.height;
    angleMap := Fill(src.width, src.height, Deg(0));
    var chunks := ChunkSize(height, numWorkers);
    var worker := 0;
    ghost var done := 0;
    while worker < numWorkers
      invariant 0 <= worker <= numWorkers && done == worker * chunks
      invariant angleMap.Valid() && angleMap.width == width && angleMap.height == height
      invariant forall j, i :: 0 <= j < height && 0 <= i < width ==>
        angleMap.rows[j][i] ==
          if Interior(width, height, i, j) && j < done then SobelEntry(src, i, j, root, atan) else Deg(0)
    {
      var startY := Max(worker * chunks, 1);
      var endY := Min((worker + 1) * chunks, height - 1);
      assert startY == Max(done, 1) && endY == Min(done + chunks, height - 1);
      angleMap := FillChunk(src, angleMap, startY, endY, root, atan);
      worker := worker + 1;
      done := done + chunks;
    }
    ChunksCoverHeight(height, numWorkers);
    assert done >= height;
    var spec := AngleMapSpec(src, root, atan);
    forall j, i | 0 <= j < height && 0 <= i < width
      ensures angleMap.rows[j][i] == spec.rows[j][i]
    {
    }
    Extensionality(angleMap, spec);
  }
}
