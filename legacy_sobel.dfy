/** The edge stage of the older root package (`sobel_filter.go`).

    `quantizeAngle` and `getEdgeDirection` there are the same switches as in
    the live package and are `Sobel.QuantizeAngle` and `Sobel.EdgeDirection`;
    the convolution and the magnitude test are `Sobel.SobelEntry`. What
    differs is the angle-map loop, which runs `y` up to `width-1` and `x` up
    to `height-1` and marks the border with NaN as it goes, and the shader
    map, which counts angles in a Go map and produces a colour image. */
module LegacySobel {
  import opened GoNumeric
  import opened Grids
  import opened Pixels
  import opened Sobel

  // ------------------------------------------------------------ angle map

  /** The loops index `angleMap[y][x]` with `y <= width-1` and `x <= height-1`,
      so they stay in range only for a square image or when a loop is empty. */
  predicate LoopsInRange(w: int, h: int) {
    w == h || w <= 1 || h <= 1
  }

  /** Iteration `(j, i)` of the nested loops comes before iteration `(y, x)`. */
  predicate Before(j: int, i: int, y: int, x: int) {
    j < y || (j == y && i < x)
  }

  /** Entry `(i, j)` of an `n` by `n` angle map once every iteration before
      `(y, x)` has run: its own iteration writes the Sobel entry, and the
      border writes of earlier iterations leave NaN. */
  function Partial(src: Raster, root: int -> real, atan: (int, int) -> real, y: int, x: int, i: int, j: int): Angle
    requires src.Valid()
  {
    var n := src.width;
    if 1 <= i && 1 <= j && Before(j, i, y, x) then SobelEntry(src, i, j, root, atan)
    else if i == 0 && 1 <= j && Before(j, 1, y, x) then Undefined
    else if j == 0 && 1 <= i && Before(1, i, y, x) then Undefined
    else if n >= 3 && i == n - 1 && 1 <= j && Before(j, n - 2, y, x) then Undefined
    else if n >= 3 && j == n - 1 && 1 <= i && Before(n - 2, i, y, x) then Undefined
    else Deg(0)
  }

  /** The finished map: NaN on the first row and column except the corner,
      which keeps the 0.0 of `make`, and the Sobel entry everywhere else,
      the last row and column included. */
  function LegacyAngleMapSpec(src: Raster, root: int -> real, atan: (int, int) -> real): (m: Grid<Angle>)
    requires src.Valid()
    ensures m.Valid() && m.width == src.width && m.height == src.height
  {
    Grid(src.width, src.height, seq(src.height, j =>
      seq(src.width, i =>
        if src.width <= 1 || src.height <= 1 then Deg(0)
        else if 1 <= i && 1 <= j then SobelEntry(src, i, j, root, atan)
        else if i == 0 && j == 0 then Deg(0)
        else Undefined)))
  }

  /** One iteration of the inner loop. */
  method Visit(src: Raster, angleMap: Grid<Angle>, x: int, y: int, root: int -> real, atan: (int, int) -> real)
    returns (m: Grid<Angle>)
    requires src.Valid() && angleMap.Valid() && src.width == src.height
    requires angleMap.width == src.width && angleMap.height == src.height
    requires 1 <= x < src.width && 1 <= y < src.height
    ensures m.Valid() && m.width == src.width && m.height == src.height
    ensures forall j, i :: 0 <= j < src.height && 0 <= i < src.width ==>
      m.rows[j][i] ==
        if i == x && j == y then SobelEntry(src, i, j, root, atan)
        else if (x == 1 && i == 0 && j == y) || (y == 1 && i == x && j == 0) ||
                (x == src.width - 2 && i == x + 1 && j == y) || (y == src.height - 2 && i == x && j == y + 1)
        then Undefined
        else angleMap.rows[j][i]
  {
    var px, py := Convolve(src, x, y);
    var magnitude := Min(255, Trunc(root(px * px + py * py)));
    var angle := atan(py, px);
    var entry := if magnitude >= 50 then QuantizeAngle(angle) else Undefined;
    assert entry == SobelEntry(src, x, y, root, atan);
    m := angleMap.Set(x, y, entry);
    m := MarkBorder(m, x, y);
  }

  /** The four NaN writes of one iteration. */
  method MarkBorder(angleMap: Grid<Angle>, x: int, y: int) returns (m: Grid<Angle>)
    requires angleMap.Valid() && angleMap.width == angleMap.height
    requires 1 <= x < angleMap.width && 1 <= y < angleMap.height
    ensures m.Valid() && m.width == angleMap.width && m.height == angleMap.height
    ensures forall j, i :: 0 <= j < angleMap.height && 0 <= i < angleMap.width ==>
      m.rows[j][i] ==
        if (x == 1 && i == 0 && j == y) || (y == 1 && i == x && j == 0) ||
           (x == angleMap.width - 2 && i == x + 1 && j == y) || (y == angleMap.height - 2 && i == x && j == y + 1)
        then Undefined
        else angleMap.rows[j][i]
  {
    var width, height := angleMap.width, angleMap.height;
    m := angleMap;
    if x == 1 {
      m := m.Set(x - 1, y, Undefined);
    }
    if y == 1 {
      m := m.Set(x, y - 1, Undefined);
    }
    if x == width - 2 {
      m := m.Set(x + 1, y, Undefined);
    }
    if y == height - 2 {
      m := m.Set(x, y + 1, Undefined);
    }
  }

  /** The inner loop `for x := 1; x <= height-1; x++` of row `y`. */
  method VisitRow(src: Raster, angleMap: Grid<Angle>, y: int, root: int -> real, atan: (int, int) -> real)
    returns (m: Grid<Angle>)
    requires src.Valid() && angleMap.Valid() && src.width == src.height && src.width >= 2
    requires angleMap.width == src.width && angleMap.height == src.height
    requires 1 <= y < src.height
    requires forall j, i :: 0 <= j < src.height && 0 <= i < src.width ==>
      angleMap.rows[j][i] == Partial(src, root, atan, y, 1, i, j)
    ensures m.Valid() && m.width == src.width && m.height == src.height
    ensures forall j, i :: 0 <= j < src.height && 0 <= i < src.width ==>
      m.rows[j][i] == Partial(src, root, atan, y + 1, 1, i, j)
  {
    var height := src.height;
    m := angleMap;
    var x := 1;
    while x <= height - 1
      invariant 1 <= x <= height
      invariant m.Valid() && m.width == src.width && m.height == src.height
      invariant forall j, i :: 0 <= j < src.height && 0 <= i < src.width ==>
        m.rows[j][i] == Partial(src, root, atan, y, x, i, j)
    {
      m := Visit(src, m, x, y, root, atan);
      x := x + 1;
    }
  }

  /** The angle map of the root `getSobelFilter`, loops run sequentially. */
  method LegacyGetSobelFilter(src: Raster, root: int -> real, atan: (int, int) -> real)
    returns (angleMap: Grid<Angle>)
    requires src.Valid() && LoopsInRange(src.width, src.height)
    ensures angleMap == LegacyAngleMapSpec(src, root, atan)
    ensures forall j, i :: 0 <= j < src.height && 0 <= i < src.width ==>
      angleMap.rows[j][i] ==
        if src.width <= 1 || src.height <= 1 then Deg(0)
        else if 1 <= i && 1 <= j then SobelEntry(src, i, j, root, atan)
        else if i == 0 && j == 0 then Deg(0)
        else Undefined
  {
    var width, height := src.width, src.height;
    angleMap := Fill(width, height, Deg(0));
    var spec := LegacyAngleMapSpec(src, root, atan);
    if width <= 1 || height <= 1 {
      // One of the two loops is empty.
      Extensionality(angleMap, spec);
      return;
    }
    angleMap := VisitRows(src, angleMap, root, atan);
    forall j, i | 0 <= j < height && 0 <= i < width
      ensures angleMap.rows[j][i] == spec.rows[j][i]
    {
      PartialComplete(src, root, atan, i, j);
    }
    Extensionality(angleMap, spec);
  }

  /** The outer loop `for y := 1; y <= width-1; y++` over a square map of zeros. */
  method VisitRows(src: Raster, angleMap0: Grid<Angle>, root: int -> real, atan: (int, int) -> real)
    returns (angleMap: Grid<Angle>)
    requires src.Valid() && src.width == src.height && src.width >= 2
    requires angleMap0 == Fill(src.width, src.height, Deg(0))
    ensures angleMap.Valid() && angleMap.width == src.width && angleMap.height == src.height
    ensures forall j, i :: 0 <= j < src.height && 0 <= i < src.width ==>
      angleMap.rows[j][i] == Partial(src, root, atan, src.width, 1, i, j)
  {
    var width, height := src.width, src.height;
    angleMap := angleMap0;
    var y := 1;
    while y <= width - 1
      invariant 1 <= y <= width
      invariant angleMap.Valid() && angleMap.width == width && angleMap.height == height
      invariant forall j, i :: 0 <= j < height && 0 <= i < width ==>
        angleMap.rows[j][i] == Partial(src, root, atan, y, 1, i, j)
    {
      angleMap := VisitRow(src, angleMap, y, root, atan);
      y := y + 1;
    }
  }

  /** After the last row every entry is the finished map's. */
  lemma PartialComplete(src: Raster, root: int -> real, atan: (int, int) -> real, i: int, j: int)
    requires src.Valid() && src.width == src.height && src.width >= 2
    requires 0 <= i < src.width && 0 <= j < src.height
    ensures Partial(src, root, atan, src.width, 1, i, j) == LegacyAngleMapSpec(src, root, atan).rows[j][i]
  {
  }

  /** Every entry off the first row and column is defined exactly when the
      gradient passes the integer test, including the last row and column,
      whose taps beyond the image read the zero colour. */
  lemma LegacyEntryDefinedIff(src: Raster, root: int -> real, atan: (int, int) -> real, i: int, j: int)
    requires src.Valid() && ExactRoot(root) && src.width >= 2 && src.height >= 2
    requires 1 <= i < src.width && 1 <= j < src.height
    ensures LegacyAngleMapSpec(src, root, atan).rows[j][i] != Undefined <==>
      Conv(src, i, j, false) * Conv(src, i, j, false) + Conv(src, i, j, true) * Conv(src, i, j, true) >= 2500
  {
    EntryDefinedIff(src, i, j, root, atan);
  }

  /** The map holds only line classes, NaN and the 0.0 corner. */
  lemma LegacyAngleMapIsQuantised(src: Raster, root: int -> real, atan: (int, int) -> real)
    requires src.Valid()
    ensures forall j, i :: 0 <= j < src.height && 0 <= i < src.width ==>
      var a := LegacyAngleMapSpec(src, root, atan).rows[j][i]; a == Undefined || IsLineClass(a)
  {
  }

  // ----------------------------------------------------------- shader map

  /** A key of `angleCounts`. Every NaN sample is a key of its own, since a
      Go map looks a NaN key up by `==` and NaN equals nothing; `NaN(i)` is
      the key that the `i`-th NaN sample of a block adds. */
  datatype Key = Value(d: int) | NaN(id: nat)

  /** Every block origin `0, b, 2b, ...` below `n` has `b` entries within `limit`,
      as the unchecked `angleMap[y+dy][x+dx]` needs. */
  predicate Covers(n: nat, b: nat, limit: nat)
    requires b >= 1
  {
    n == 0 || (n - 1) / b * b + b <= limit
  }

  /** The first `n` samples of row `y` from column `x0`. */
  function RowSamples(m: Grid<Angle>, x0: int, y: int, n: nat): (s: seq<Angle>)
    requires m.Valid()
    ensures |s| == n
  {
    seq(n, k => m.At(x0 + k, y, Undefined))
  }

  /** The samples of the first `rows` rows of the `b`-wide block at `(x0, y0)`, row by row. */
  function Samples(m: Grid<Angle>, x0: int, y0: int, b: nat, rows: nat): seq<Angle>
    requires m.Valid()
  {
    if rows == 0 then [] else Samples(m, x0, y0, b, rows - 1) + RowSamples(m, x0, y0 + rows - 1, b)
  }

  /** `angleCounts` after the samples `s`: an angle's count is its number of
      occurrences, and the NaN samples are that many keys of count 1. */
  ghost predicate Tallies(counts: map<Key, nat>, s: seq<Angle>) {
    (forall d :: Value(d) in counts ==> counts[Value(d)] == multiset(s)[Deg(d)]) &&
    (forall d :: multiset(s)[Deg(d)] > 0 ==> Value(d) in counts) &&
    (forall i: nat :: NaN(i) in counts ==> counts[NaN(i)] == 1 && i < multiset(s)[Undefined]) &&
    (forall i: nat :: i < multiset(s)[Undefined] ==> NaN(i) in counts)
  }

  /** `angleCounts[angle]++` for one sample. */
  function Count(counts: map<Key, nat>, nans: nat, angle: Angle): map<Key, nat> {
    match angle
    case Undefined => counts[NaN(nans) := 1]
    case Deg(d) => counts[Value(d) := if Value(d) in counts then counts[Value(d)] + 1 else 1]
  }

  /** Counting one more sample keeps the tally. */
  lemma CountKeepsTally(counts: map<Key, nat>, s: seq<Angle>, angle: Angle)
    requires Tallies(counts, s)
    ensures Tallies(Count(counts, multiset(s)[Undefined], angle), s + [angle])
  {
    assert multiset(s + [angle]) == multiset(s) + multiset{angle};
  }

  /** The inner counting loop over the `b` samples of row `y` from column `x0`. */
  method CountRow(m: Grid<Angle>, x0: nat, y: nat, b: nat, counts0: map<Key, nat>, nans0: nat, ghost s0: seq<Angle>)
    returns (counts: map<Key, nat>, nans: nat, ghost s: seq<Angle>)
    requires m.Valid() && y < m.height && x0 + b <= m.width
    requires Tallies(counts0, s0) && nans0 == multiset(s0)[Undefined]
    ensures s == s0 + RowSamples(m, x0, y, b)
    ensures Tallies(counts, s) && nans == multiset(s)[Undefined]
    ensures Tallies(counts, s0 + RowSamples(m, x0, y, b))
  {
    counts, nans := counts0, nans0;
    s := s0;
    for dx := 0 to b
      invariant s == s0 + RowSamples(m, x0, y, dx)
      invariant Tallies(counts, s) && nans == multiset(s)[Undefined]
    {
      var angle := m.rows[y][x0 + dx];
      CountKeepsTally(counts, s, angle);
      counts := Count(counts, nans, angle);
      if angle == Undefined {
        nans := nans + 1;
      }
      assert m.At(x0 + dx, y, Undefined) == angle;
      assert RowSamples(m, x0, y, dx + 1) == RowSamples(m, x0, y, dx) + [angle];
      s := s + [angle];
    }
  }

  /** The two counting loops over the `b` by `b` block at `(x0, y0)`. */
  method CountBlock(m: Grid<Angle>, x0: nat, y0: nat, b: nat) returns (counts: map<Key, nat>)
    requires m.Valid() && y0 + b <= m.height && x0 + b <= m.width
    ensures Tallies(counts, Samples(m, x0, y0, b, b))
  {
    counts := map[];
    var nans := 0;
    ghost var s: seq<Angle> := [];
    for dy := 0 to b
      invariant s == Samples(m, x0, y0, b, dy)
      invariant Tallies(counts, s) && nans == multiset(s)[Undefined]
    {
      assert Samples(m, x0, y0, b, dy + 1) == s + RowSamples(m, x0, y0 + dy, b);
      counts, nans, s := CountRow(m, x0, y0 + dy, b, counts, nans, s);
    }
  }

  /** `for angle, count := range angleCounts` with the strict `>`: Go visits
      the keys in an unspecified order, so the model picks each next key
      arbitrarily, and the result is some key of maximal count. */
  method DominantKey(counts: map<Key, nat>) returns (dominant: Key, maxCount: nat)
    ensures maxCount == 0 ==> dominant == Value(0)
    ensures maxCount > 0 ==> dominant in counts && counts[dominant] == maxCount
    ensures forall k :: k in counts ==> counts[k] <= maxCount
  {
    dominant, maxCount := Value(0), 0;
    var remaining := counts.Keys;
    while remaining != {}
      invariant remaining <= counts.Keys
      invariant forall k :: k in counts && k !in remaining ==> counts[k] <= maxCount
      invariant maxCount == 0 ==> dominant == Value(0)
      invariant maxCount > 0 ==> dominant in counts && counts[dominant] == maxCount
      decreases remaining
    {
      var k :| k in remaining;
      if counts[k] > maxCount {
        dominant, maxCount := k, counts[k];
      }
      remaining := remaining - {k};
    }
  }

  /** What the cutoff decides. A NaN key never gets past it; a block is
      painted exactly when some angle occurs more than `2b` times, and then
      with an angle of maximal count. */
  lemma {:induction false} Decide(counts: map<Key, nat>, s: seq<Angle>, b: nat, dominant: Key, maxCount: nat)
    requires Tallies(counts, s) && b >= 1
    requires maxCount == 0 ==> dominant == Value(0)
    requires maxCount > 0 ==> dominant in counts && counts[dominant] == maxCount
    requires forall k :: k in counts ==> counts[k] <= maxCount
    ensures dominant.NaN? ==> maxCount <= 2 * b
    ensures maxCount <= b * 2 || dominant.NaN? ==> forall d :: multiset(s)[Deg(d)] <= 2 * b
    ensures !(maxCount <= b * 2 || dominant.NaN?) ==>
      multiset(s)[Deg(dominant.d)] > 2 * b && forall e :: multiset(s)[Deg(e)] <= multiset(s)[Deg(dominant.d)]
  {
    if maxCount <= b * 2 {
      forall d | multiset(s)[Deg(d)] > 0
        ensures multiset(s)[Deg(d)] <= 2 * b
      {
        assert Value(d) in counts;
      }
    } else if dominant.Value? {
      forall e | multiset(s)[Deg(e)] > 0
        ensures multiset(s)[Deg(e)] <= multiset(s)[Deg(dominant.d)]
      {
        assert Value(e) in counts;
      }
    }
  }

  /** The colour of block `(i, j)`: zero when no angle occurs more than `2b`
      times, otherwise the edge colour of an angle of maximal count. */
  ghost predicate BlockOutcome(m: Grid<Angle>, b: nat, i: int, j: int, c: Color)
    requires m.Valid()
  {
    var s := Samples(m, i * b, j * b, b, b);
    (c == Transparent && forall d :: multiset(s)[Deg(d)] <= 2 * b) ||
    (exists d :: c == EdgeDirection(Deg(d)) && multiset(s)[Deg(d)] > 2 * b &&
       forall e :: multiset(s)[Deg(e)] <= multiset(s)[Deg(d)])
  }

  /** The scan's verdict on block `(i, j)` is an outcome `BlockOutcome` allows. */
  lemma DecideOutcome(m: Grid<Angle>, b: nat, i: nat, j: nat, counts: map<Key, nat>, dominant: Key, maxCount: nat)
    requires m.Valid() && b >= 1 && Tallies(counts, Samples(m, i * b, j * b, b, b))
    requires maxCount == 0 ==> dominant == Value(0)
    requires maxCount > 0 ==> dominant in counts && counts[dominant] == maxCount
    requires forall k :: k in counts ==> counts[k] <= maxCount
    ensures BlockOutcome(m, b, i, j,
      if maxCount <= b * 2 || dominant.NaN? then Transparent else EdgeDirection(Deg(dominant.d)))
  {
    var s := Samples(m, i * b, j * b, b, b);
    Decide(counts, s, b, dominant, maxCount);
    if maxCount <= b * 2 || dominant.NaN? {
      assert BlockOutcome(m, b, i, j, Transparent);
    } else {
      var d := dominant.d;
      assert exists d' :: (EdgeDirection(Deg(d)) == EdgeDirection(Deg(d')) && multiset(s)[Deg(d')] > 2 * b &&
        forall e :: multiset(s)[Deg(e)] <= multiset(s)[Deg(d')]);
      assert BlockOutcome(m, b, i, j, EdgeDirection(Deg(d)));
    }
  }

  /** Block origin `k * b` below `n` leaves room for a whole block within `limit`. */
  lemma {:induction false} BlockFits(k: nat, b: nat, n: nat, limit: nat)
    requires b >= 1 && k * b < n && Covers(n, b, limit)
    ensures k * b + b <= limit
  {
    var q := (n - 1) / b;
    RoundDownFacts(n - 1, b);
    MulStrict(k, q + 1, b);
    MulMonotone(k, q, b);
  }

  /** A cell index below `n / b` has its whole block below `n`. */
  lemma {:induction false} CellBlockBelow(j: nat, b: nat, n: nat)
    requires b >= 1 && j < n / b
    ensures j * b + b <= n
  {
    RoundDownFacts(n, b);
    MulMonotone(j + 1, n / b, b);
  }

  /** Block origins are `k * b`, so `x / b` is `k`, and a cell whose block
      starts below `k * b` has an index below `k`. */
  lemma {:induction false} BlockIndex(j: nat, k: nat, b: nat)
    requires b >= 1
    ensures (k * b) / b == k
    ensures j * b < k * b ==> j < k
  {
    DivOfMultiple(k, b);
    if j >= k {
      MulMonotone(k, j, b);
    }
  }

  /** One block: count, scan, and paint unless the cutoff or NaN skips it. */
  method ShadeBlock(angleMap: Grid<Angle>, b: nat, img: Raster, x: nat, y: nat, ghost bi: nat, ghost bj: nat)
    returns (out: Raster)
    requires angleMap.Valid() && b >= 1 && img.Valid() && x == bi * b && y == bj * b
    requires bi * b + b <= angleMap.width && bj * b + b <= angleMap.height
    requires img.InBounds(bi, bj) ==> img.rows[bj][bi] == Transparent
    ensures out.Valid() && out.width == img.width && out.height == img.height
    ensures forall j, i :: 0 <= j < img.height && 0 <= i < img.width ==>
      if i == bi && j == bj then BlockOutcome(angleMap, b, i, j, out.rows[j][i]) else out.rows[j][i] == img.rows[j][i]
  {
    var counts := CountBlock(angleMap, x, y, b);
    var dominant, maxCount := DominantKey(counts);
    DecideOutcome(angleMap, b, bi, bj, counts, dominant, maxCount);
    BlockIndex(0, bi, b);
    BlockIndex(0, bj, b);
    if maxCount <= b * 2 || dominant.NaN? {
      out := img;
    } else {
      out := img.Set(x / b, y / b, EdgeDirection(Deg(dominant.d)));
    }
  }

  /** The inner loop `for x := 0; x < width; x += blockSize` of block row `bj`. */
  method ShadeRow(angleMap: Grid<Angle>, width: nat, b: nat, img: Raster, y: nat, ghost bj: nat) returns (out: Raster)
    requires angleMap.Valid() && b >= 1 && img.Valid() && Covers(width, b, angleMap.width) && y == bj * b
    requires bj * b + b <= angleMap.height && img.width == width / b
    requires forall i :: 0 <= i < img.width && bj < img.height ==> img.rows[bj][i] == Transparent
    ensures out.Valid() && out.width == img.width && out.height == img.height
    ensures forall j, i :: 0 <= j < img.height && 0 <= i < img.width ==>
      if j == bj then BlockOutcome(angleMap, b, i, j, out.rows[j][i]) else out.rows[j][i] == img.rows[j][i]
  {
    out := img;
    var x := 0;
    ghost var bi: nat := 0;
    while x < width
      invariant x == bi * b
      invariant out.Valid() && out.width == img.width && out.height == img.height
      invariant forall j, i :: 0 <= j < img.height && 0 <= i < img.width ==>
        if j == bj then (if i < bi then BlockOutcome(angleMap, b, i, j, out.rows[j][i]) else out.rows[j][i] == Transparent)
        else out.rows[j][i] == img.rows[j][i]
      decreases width - x
    {
      BlockFits(bi, b, width, angleMap.width);
      out := ShadeBlock(angleMap, b, out, x, y, bi, bj);
      x := x + b;
      bi := bi + 1;
    }
    forall j, i | 0 <= j < img.height && 0 <= i < img.width
      ensures if j == bj then BlockOutcome(angleMap, b, i, j, out.rows[j][i]) else out.rows[j][i] == img.rows[j][i]
    {
      CellBlockBelow(i, b, width);
      BlockIndex(i, bi, b);
    }
  }

  /** The root `computeShaderMap`: a `width/b` by `height/b` colour image in
      which each block is zero or the edge colour of an angle of maximal count. */
  method ComputeShaderMap(angleMap: Grid<Angle>, width: nat, height: nat, blockSize: int) returns (img: Raster)
    requires angleMap.Valid() && blockSize >= 1
    requires Covers(width, blockSize, angleMap.width) && Covers(height, blockSize, angleMap.height)
    ensures img.Valid() && img.width == width / blockSize && img.height == height / blockSize
    ensures forall j, i :: 0 <= j < img.height && 0 <= i < img.width ==>
      BlockOutcome(angleMap, blockSize, i, j, img.rows[j][i])
  {
    var b: nat := blockSize;
    var newWidth, newHeight := width / b, height / b;
    img := Fill(newWidth, newHeight, Transparent);
    img := ShadeRows(angleMap, width, height, b, img);
  }

  /** The outer loop `for y := 0; y < height; y += blockSize` over a zero canvas. */
  method ShadeRows(angleMap: Grid<Angle>, width: nat, height: nat, b: nat, img0: Raster) returns (img: Raster)
    requires angleMap.Valid() && b >= 1
    requires Covers(width, b, angleMap.width) && Covers(height, b, angleMap.height)
    requires img0.Valid() && img0.width == width / b && img0.height == height / b
    requires forall j, i :: 0 <= j < img0.height && 0 <= i < img0.width ==> img0.rows[j][i] == Transparent
    ensures img.Valid() && img.width == img0.width && img.height == img0.height
    ensures forall j, i :: 0 <= j < img.height && 0 <= i < img.width ==>
      BlockOutcome(angleMap, b, i, j, img.rows[j][i])
  {
    img := img0;
    var y := 0;
    ghost var bj: nat := 0;
    while y < height
      invariant y == bj * b
      invariant img.Valid() && img.width == img0.width && img.height == img0.height
      invariant forall j, i :: 0 <= j < img.height && 0 <= i < img.width ==>
        if j < bj then BlockOutcome(angleMap, b, i, j, img.rows[j][i]) else img.rows[j][i] == Transparent
      decreases height - y
    {
      BlockFits(bj, b, height, angleMap.height);
      img := ShadeRow(angleMap, width, b, img, y, bj);
      y := y + b;
      bj := bj + 1;
    }
    forall j, i | 0 <= j < img.height && 0 <= i < img.width
      ensures BlockOutcome(angleMap, b, i, j, img.rows[j][i])
    {
      CellBlockBelow(j, b, height);
      BlockIndex(j, bj, b);
    }
  }

  /** Whatever order Go's map iteration takes, a block is painted exactly
      when some angle occurs more than `2b` times in it, and a painted block
      is never zero: every edge colour is opaque. */
  lemma PaintedIff(m: Grid<Angle>, b: nat, i: int, j: int, c: Color)
    requires m.Valid() && BlockOutcome(m, b, i, j, c)
    ensures c != Transparent <==> exists d :: multiset(Samples(m, i * b, j * b, b, b))[Deg(d)] > 2 * b
  {
    forall e
      ensures EdgeDirection(Deg(e)).a == 65535
    {
    }
  }
}
