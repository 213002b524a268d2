/** `optimizedShaderMap` of `cmd/sobel_filter.go`: one glyph per block of the
    angle map, chosen by a four-bucket vote. */
module ShaderMap {
  import opened GoNumeric
  import opened Grids
  import opened Pixels
  import opened Sobel

  /** `angleConversions`: the glyph for buckets 0, 45, 90 and 135 degrees. */
  const AngleConversions: seq<char> := ['_', '/', '|', '\\']

  /** Every entry is NaN or one of the four line classes, as `getSobelFilter` produces. */
  predicate Quantised(m: Grid<Angle>)
    requires m.Valid()
  {
    forall j, i :: 0 <= j < m.height && 0 <= i < m.width ==>
      m.rows[j][i] == Undefined || IsLineClass(m.rows[j][i])
  }

  lemma AngleMapIsQuantised(src: Raster, root: int -> real, atan: (int, int) -> real)
    requires src.Valid()
    ensures Quantised(AngleMapSpec(src, root, atan))
  {
  }

  /** The bucket `int(angle) / 45` of a sample, or -1 when the loop skips it
      (beyond the map or NaN). */
  function Bucket(m: Grid<Angle>, x: int, y: int): (k: int)
    requires m.Valid() && Quantised(m) && 0 <= x && 0 <= y
    ensures -1 <= k < 4
  {
    if y >= m.height || x >= m.width then -1
    else match m.rows[y][x]
      case Undefined => -1
      case Deg(d) => d / 45
  }

  /** How many of the first `cols` samples of row `y`, from column `x0`, fall in bucket `k`. */
  function CountRow(m: Grid<Angle>, x0: nat, y: nat, k: int, cols: nat): nat
    requires m.Valid() && Quantised(m)
  {
    if cols == 0 then 0
    else CountRow(m, x0, y, k, cols - 1) + (if Bucket(m, x0 + cols - 1, y) == k then 1 else 0)
  }

  /** How many samples of the first `rows` rows of the window at `(x0, y0)` fall in bucket `k`. */
  function CountWindow(m: Grid<Angle>, x0: nat, y0: nat, b: nat, k: int, rows: nat): nat
    requires m.Valid() && Quantised(m)
  {
    if rows == 0 then 0
    else CountWindow(m, x0, y0, b, k, rows - 1) + CountRow(m, x0, y0 + rows - 1, k, b + 1)
  }

  /** `angleBuckets` after the `(b+1) x (b+1)` window at `(x0, y0)`. */
  function Tally(m: Grid<Angle>, x0: nat, y0: nat, b: nat): (t: seq<nat>)
    requires m.Valid() && Quantised(m)
    ensures |t| == 4
  {
    seq(4, k => CountWindow(m, x0, y0, b, k, b + 1))
  }

  /** `dominantAngle` and `maxCount`. */
  datatype Dominant = Dominant(angle: nat, count: nat)

  /** The strict-`>` scan over the first `n` buckets: the lowest bucket whose
      count is maximal (bucket 0 with count 0 when all are empty). */
  function Scan(counts: seq<nat>, n: nat): (p: Dominant)
    requires n <= |counts|
    ensures p.angle < n || p == Dominant(0, 0)
    ensures p.angle < |counts| ==> (p.count == counts[p.angle] || p == Dominant(0, 0))
    ensures forall k :: 0 <= k < n ==> counts[k] <= p.count
    ensures forall k :: 0 <= k < p.angle ==> counts[k] < p.count
  {
    if n == 0 then Dominant(0, 0)
    else
      var p := Scan(counts, n - 1);
      if counts[n - 1] > p.count then Dominant(n - 1, counts[n - 1]) else p
  }

  /** With at least one non-empty bucket the scan reports a real bucket and its count. */
  lemma ScanFindsMaximum(counts: seq<nat>)
    requires |counts| == 4
    ensures Scan(counts, 4).angle < 4 && Scan(counts, 4).count == counts[Scan(counts, 4).angle]
  {
  }

  /** The glyph of one block. */
  function ShaderCell(counts: seq<nat>, b: nat): (c: char)
    requires |counts| == 4
    ensures c == ' ' <==> forall k :: 0 <= k < 4 ==> counts[k] <= 2 * b
    ensures c != ' ' ==> c == AngleConversions[Scan(counts, 4).angle]
  {
    var p := Scan(counts, 4);
    ScanFindsMaximum(counts);
    if p.count <= b * 2 then ' ' else AngleConversions[p.angle]
  }

  /** The glyph of block `(i, j)`, whose window starts at `(i * b, j * b)`. */
  function BlockCell(m: Grid<Angle>, b: nat, i: nat, j: nat): char
    requires m.Valid() && Quantised(m)
  {
    ShaderCell(Tally(m, i * b, j * b, b), b)
  }

  /** The shader map the source returns: `height/b` rows of `width/b` glyphs. */
  function ShaderMapSpec(m: Grid<Angle>, width: nat, height: nat, b: nat): (s: Grid<char>)
    requires m.Valid() && Quantised(m) && b >= 1
    ensures s.Valid() && s.width == width / b && s.height == height / b
  {
    Grid(width / b, height / b, seq(height / b, j requires 0 <= j =>
      seq(width / b, i requires 0 <= i => BlockCell(m, b, i, j))))
  }

  /** One block: the bucket loops, then the scan, then the cutoff. */
  method BlockGlyph(m: Grid<Angle>, x: nat, y: nat, b: nat) returns (c: char)
    requires m.Valid() && Quantised(m)
    ensures c == ShaderCell(Tally(m, x, y, b), b)
  {
    var buckets: seq<nat> := [0, 0, 0, 0];
    var dy := 0;
    while dy <= b
      invariant 0 <= dy <= b + 1 && |buckets| == 4
      invariant forall k :: 0 <= k < 4 ==> buckets[k] == CountWindow(m, x, y, b, k, dy)
    {
      buckets := CountWindowRow(m, x, y, b, dy, buckets);
      dy := dy + 1;
    }
    assert buckets == Tally(m, x, y, b);
    var dominant, maxCount := ScanBuckets(buckets);
    if maxCount <= b * 2 {
      c := ' ';
    } else {
      c := AngleConversions[dominant];
    }
  }

  /** The inner loop over `dx` for row `y + dy` of the window: out-of-range and
      NaN samples are skipped, the others counted in bucket `int(angle) / 45`. */
  method CountWindowRow(m: Grid<Angle>, x: nat, y: nat, b: nat, dy: nat, buckets0: seq<nat>) returns (buckets: seq<nat>)
    requires m.Valid() && Quantised(m) && |buckets0| == 4
    requires forall k :: 0 <= k < 4 ==> buckets0[k] == CountWindow(m, x, y, b, k, dy)
    ensures |buckets| == 4
    ensures forall k :: 0 <= k < 4 ==> buckets[k] == CountWindow(m, x, y, b, k, dy + 1)
  {
    buckets := buckets0;
    var dx := 0;
    while dx <= b
      invariant 0 <= dx <= b + 1 && |buckets| == 4
      invariant forall k :: 0 <= k < 4 ==>
        buckets[k] == CountWindow(m, x, y, b, k, dy) + CountRow(m, x, y + dy, k, dx)
    {
      if y + dy >= m.height || x + dx >= m.width {
      } else if m.rows[y + dy][x + dx] == Undefined {
      } else {
        var angle := m.rows[y + dy][x + dx].d / 45;
        buckets := buckets[angle := buckets[angle] + 1];
      }
      dx := dx + 1;
    }
  }

  /** The loop over the four buckets with the strict `>`. */
  method ScanBuckets(buckets: seq<nat>) returns (dominant: nat, maxCount: nat)
    requires |buckets| == 4
    ensures Dominant(dominant, maxCount) == Scan(buckets, 4)
  {
    dominant, maxCount := 0, 0;
    var k := 0;
    while k < 4
      invariant 0 <= k <= 4
      invariant Dominant(dominant, maxCount) == Scan(buckets, k)
    {
      if buckets[k] > maxCount {
        dominant, maxCount := k, buckets[k];
      }
      k := k + 1;
    }
  }

  lemma MultipleOf(n: nat, b: nat)
    requires b >= 1 && n % b == 0
    ensures (n / b) * b == n
  {
  }

  /** The inner loop over `x` for the block row starting at `y == row * b`. */
  method FillBlockRow(m: Grid<Angle>, shaderMap: Grid<char>, width: nat, b: nat, y: nat, ghost row: nat)
    returns (s: Grid<char>)
    requires m.Valid() && Quantised(m) && b >= 1 && width % b == 0 && y == row * b
    requires shaderMap.Valid() && shaderMap.width == width / b && row < shaderMap.height
    ensures s.Valid() && s.width == shaderMap.width && s.height == shaderMap.height
    ensures forall j, i :: 0 <= j < s.height && 0 <= i < s.width ==>
      s.rows[j][i] == if j == row then BlockCell(m, b, i, j) else shaderMap.rows[j][i]
  {
    s := shaderMap;
    var x := 0;
    ghost var col := 0;
    MultipleOf(width, b);
    DivOfMultiple(row, b);
    while x < width
      invariant x == col * b && col <= width / b
      invariant s.Valid() && s.width == shaderMap.width && s.height == shaderMap.height
      invariant forall j, i :: 0 <= j < s.height && 0 <= i < s.width ==>
        s.rows[j][i] == if j == row && i < col then BlockCell(m, b, i, j) else shaderMap.rows[j][i]
    {
      MulStrict(col, width / b, b);
      var c := BlockGlyph(m, x, y, b);
      DivOfMultiple(col, b);
      s := s.Set(x / b, y / b, c);
      assert (col + 1) * b == x + b;
      x := x + b;
      col := col + 1;
    }
    MulStrict(col, width / b, b);
  }

  /** `optimizedShaderMap(angleMap, width, height, blockSize)`. The source indexes
      `shaderMap[y/b][x/b]`, which is in range only when both sizes are multiples of `b`. */
  method OptimizedShaderMap(m: Grid<Angle>, width: nat, height: nat, b: nat) returns (shaderMap: Grid<char>)
    requires m.Valid() && Quantised(m) && b >= 1
    requires width % b == 0 && height % b == 0
    ensures shaderMap == ShaderMapSpec(m, width, height, b)
  {
    var newWidth, newHeight := width / b, height / b;
    shaderMap := Fill(newWidth, newHeight, '\0');
    MultipleOf(height, b);
    var y := 0;
    ghost var row := 0;
    while y < height
      invariant y == row * b && row <= newHeight
      invariant shaderMap.Valid() && shaderMap.width == newWidth && shaderMap.height == newHeight
      invariant forall j, i :: 0 <= j < newHeight && 0 <= i < newWidth ==>
        shaderMap.rows[j][i] == if j < row then BlockCell(m, b, i, j) else '\0'
    {
      MulStrict(row, newHeight, b);
      shaderMap := FillBlockRow(m, shaderMap, width, b, y, row);
      assert (row + 1) * b == y + b;
      y := y + b;
      row := row + 1;
    }
    MulStrict(row, newHeight, b);
    Extensionality(shaderMap, ShaderMapSpec(m, width, height, b));
  }

  // ------------------------------------------------------ a uniform image

  predicate OnBorder(w: int, h: int, x: int, y: int) {
    x == 0 || y == 0 || x == w - 1 || y == h - 1
  }

  /** The angle map of a uniform image: the 0.0 of `make` on the border,
      NaN everywhere inside. */
  predicate BorderPattern(m: Grid<Angle>)
    requires m.Valid()
  {
    forall y, x :: 0 <= y < m.height && 0 <= x < m.width ==>
      m.rows[y][x] == if OnBorder(m.width, m.height, x, y) then Deg(0) else Undefined
  }

  /** Every pixel of a uniform image has a flat neighbourhood, so every
      interior entry is NaN. */
  lemma UniformAngleMap(src: Raster, c: Color, root: int -> real, atan: (int, int) -> real)
    requires src.Valid() && ExactRoot(root)
    requires forall y, x :: 0 <= y < src.height && 0 <= x < src.width ==> src.rows[y][x] == c
    ensures Quantised(AngleMapSpec(src, root, atan)) && BorderPattern(AngleMapSpec(src, root, atan))
  {
    var m := AngleMapSpec(src, root, atan);
    forall y, x | 0 <= y < m.height && 0 <= x < m.width && Interior(src.width, src.height, x, y)
      ensures SobelEntry(src, x, y, root, atan) == Undefined
    {
      forall i, j | x - 1 <= i <= x + 1 && y - 1 <= j <= y + 1
        ensures Lum8(src, i, j) == Lum8(src, x, y)
      {
        assert Pixel(src, i, j) == c;
      }
      ConstantNeighbourhoodIsUndefined(src, x, y, root, atan);
    }
  }

  lemma PatternBucket(m: Grid<Angle>, x: nat, y: nat)
    requires m.Valid() && Quantised(m) && BorderPattern(m)
    ensures Bucket(m, x, y) == if x < m.width && y < m.height && OnBorder(m.width, m.height, x, y) then 0 else -1
  {
  }

  /** Only bucket 0 ever receives a sample. */
  lemma {:induction false} OtherBucketsEmpty(m: Grid<Angle>, x0: nat, y0: nat, b: nat, k: int, rows: nat)
    requires m.Valid() && Quantised(m) && BorderPattern(m) && k > 0
    ensures CountWindow(m, x0, y0, b, k, rows) == 0
  {
    if rows > 0 {
      OtherBucketsEmpty(m, x0, y0, b, k, rows - 1);
      OtherBucketsRow(m, x0, y0 + rows - 1, k, b + 1);
    }
  }

  lemma {:induction false} OtherBucketsRow(m: Grid<Angle>, x0: nat, y: nat, k: int, n: nat)
    requires m.Valid() && Quantised(m) && BorderPattern(m) && k > 0
    ensures CountRow(m, x0, y, k, n) == 0
  {
    if n > 0 {
      OtherBucketsRow(m, x0, y, k, n - 1);
      PatternBucket(m, x0 + n - 1, y);
    }
  }

  /** A border row contributes every sample inside the map. */
  lemma {:induction false} BorderRowCount(m: Grid<Angle>, x0: nat, y: nat, n: nat)
    requires m.Valid() && Quantised(m) && BorderPattern(m)
    requires y < m.height && (y == 0 || y == m.height - 1) && x0 <= m.width
    ensures CountRow(m, x0, y, 0, n) == Min(n, m.width - x0)
  {
    if n > 0 {
      BorderRowCount(m, x0, y, n - 1);
      PatternBucket(m, x0 + n - 1, y);
    }
  }

  /** An inner row contributes its first and its last column when the window holds them. */
  lemma {:induction false} InnerRowCount(m: Grid<Angle>, x0: nat, y: nat, n: nat)
    requires m.Valid() && Quantised(m) && BorderPattern(m) && m.width >= 2
    requires 0 < y < m.height - 1
    ensures CountRow(m, x0, y, 0, n) ==
      (if x0 == 0 && n > 0 then 1 else 0) + (if x0 <= m.width - 1 < x0 + n then 1 else 0)
  {
    if n > 0 {
      InnerRowCount(m, x0, y, n - 1);
      PatternBucket(m, x0 + n - 1, y);
    }
  }

  /** A row below the map contributes nothing. */
  lemma {:induction false} OutsideRowCount(m: Grid<Angle>, x0: nat, y: nat, n: nat)
    requires m.Valid() && Quantised(m) && BorderPattern(m) && y >= m.height
    ensures CountRow(m, x0, y, 0, n) == 0
  {
    if n > 0 {
      OutsideRowCount(m, x0, y, n - 1);
      PatternBucket(m, x0 + n - 1, y);
    }
  }

  /** The bucket-0 count of one row of a window of width `b+1`. */
  function WindowRowCount(m: Grid<Angle>, x0: nat, y: nat, b: nat): nat
    requires m.Valid() && Quantised(m)
  {
    CountRow(m, x0, y, 0, b + 1)
  }

  /** Rows `lo .. hi-1` of the window, each worth `c`, which is 0 or 1. */
  lemma {:induction false} WindowRows(m: Grid<Angle>, x0: nat, y0: nat, b: nat, lo: nat, hi: nat, c: nat)
    requires m.Valid() && Quantised(m) && lo <= hi && c <= 1
    requires forall y :: y0 + lo <= y < y0 + hi ==> WindowRowCount(m, x0, y, b) == c
    ensures CountWindow(m, x0, y0, b, 0, hi) == CountWindow(m, x0, y0, b, 0, lo) + (if c == 1 then hi - lo else 0)
  {
    if hi > lo {
      WindowRows(m, x0, y0, b, lo, hi - 1, c);
      assert WindowRowCount(m, x0, y0 + hi - 1, b) == c;
    }
  }

  /** One more row of the window. */
  lemma WindowStep(m: Grid<Angle>, x0: nat, y0: nat, b: nat, r: nat)
    requires m.Valid() && Quantised(m)
    ensures CountWindow(m, x0, y0, b, 0, r + 1) == CountWindow(m, x0, y0, b, 0, r) + WindowRowCount(m, x0, y0 + r, b)
  {
  }

  /** Where block `i` of a map of `n` (a multiple of `b`) lies: inside, and
      flush with the far edge only when it is the last block. */
  lemma BlockPlacement(n: nat, b: nat, i: nat)
    requires b >= 1 && n % b == 0 && i < n / b
    ensures i * b + b <= n
    ensures i == n / b - 1 <==> i * b + b == n
    ensures i < n / b - 1 ==> i * b + 2 * b <= n
  {
    MultipleOf(n, b);
    MulMonotone(i + 1, n / b, b);
    if i < n / b - 1 {
      MulMonotone(i + 2, n / b, b);
    }
  }

  lemma TwoBlocks(n: nat, b: nat)
    requires b >= 1 && n % b == 0 && n >= 2 * b
    ensures n / b >= 2
  {
    MultipleOf(n, b);
    if n / b <= 1 {
      MulMonotone(n / b, 1, b);
    }
  }

  /** What an inner row of the window at column `x0` holds: its first and its last column. */
  function InnerCount(w: int, x0: nat, b: nat): nat {
    (if x0 == 0 then 1 else 0) + (if x0 <= w - 1 < x0 + b + 1 then 1 else 0)
  }

  /** Rows `lo .. hi-1` of the window, all inner rows. */
  lemma InnerRows(m: Grid<Angle>, x0: nat, y0: nat, b: nat, lo: nat, hi: nat)
    requires m.Valid() && Quantised(m) && BorderPattern(m) && m.width >= 2
    requires lo <= hi && 0 < y0 + lo && y0 + hi <= m.height - 1 && InnerCount(m.width, x0, b) <= 1
    ensures CountWindow(m, x0, y0, b, 0, hi) ==
      CountWindow(m, x0, y0, b, 0, lo) + (if InnerCount(m.width, x0, b) == 1 then hi - lo else 0)
  {
    forall y | y0 + lo <= y < y0 + hi
      ensures WindowRowCount(m, x0, y, b) == InnerCount(m.width, x0, b)
    {
      InnerRowCount(m, x0, y, b + 1);
    }
    WindowRows(m, x0, y0, b, lo, hi, InnerCount(m.width, x0, b));
  }

  /** How the window of block column `i` meets the first and last columns:
      an inner row holds one sample in the first and last block columns and
      none between, a border row holds `b+1` samples except in the last
      block column, which is cut at the edge. */
  lemma ColumnPlacement(w: nat, b: nat, i: nat)
    requires b >= 2 && w % b == 0 && w >= 2 * b && i < w / b
    ensures InnerCount(w, i * b, b) == if i == 0 || i == w / b - 1 then 1 else 0
    ensures Min(b + 1, w - i * b) == if i == w / b - 1 then b else b + 1
    ensures i == 0 ==> i != w / b - 1
  {
    BlockPlacement(w, b, i);
    TwoBlocks(w, b);
    if i >= 1 {
      MulMonotone(1, i, b);
    }
  }

  /** Block row 0: the first row is a border row, the next `b` are inner. */
  lemma TopBlockCount(m: Grid<Angle>, b: nat, i: nat)
    requires m.Valid() && Quantised(m) && BorderPattern(m) && b >= 2
    requires m.width % b == 0 && m.width >= 2 * b && m.height >= 2 * b && i < m.width / b
    ensures i == 0 ==> CountWindow(m, i * b, 0, b, 0, b + 1) == 2 * b + 1
    ensures i != 0 ==> CountWindow(m, i * b, 0, b, 0, b + 1) <= 2 * b
  {
    var x0 := i * b;
    ColumnPlacement(m.width, b, i);
    BorderRowCount(m, x0, 0, b + 1);
    assert CountWindow(m, x0, 0, b, 0, 1) == Min(b + 1, m.width - x0);
    InnerRows(m, x0, 0, b, 1, b + 1);
    if InnerCount(m.width, x0, b) == 1 {
      assert CountWindow(m, x0, 0, b, 0, b + 1) == Min(b + 1, m.width - x0) + b;
    } else {
      assert CountWindow(m, x0, 0, b, 0, b + 1) == Min(b + 1, m.width - x0);
    }
  }

  /** A block row strictly between the first and the last: only inner rows. */
  lemma MiddleBlockCount(m: Grid<Angle>, b: nat, i: nat, j: nat)
    requires m.Valid() && Quantised(m) && BorderPattern(m) && b >= 2
    requires m.width % b == 0 && m.height % b == 0 && m.width >= 2 * b && m.height >= 2 * b
    requires i < m.width / b && 0 < j < m.height / b - 1
    ensures CountWindow(m, i * b, j * b, b, 0, b + 1) <= b + 1
  {
    ColumnPlacement(m.width, b, i);
    BlockPlacement(m.height, b, j);
    MulMonotone(1, j, b);
    InnerRows(m, i * b, j * b, b, 0, b + 1);
    if InnerCount(m.width, i * b, b) == 1 {
      assert CountWindow(m, i * b, j * b, b, 0, b + 1) == b + 1;
    } else {
      assert CountWindow(m, i * b, j * b, b, 0, b + 1) == 0;
    }
  }

  /** The last block row: `b-1` inner rows, the last row of the map, and a
      row below it. */
  lemma BottomBlockCount(m: Grid<Angle>, b: nat, i: nat, j: nat)
    requires m.Valid() && Quantised(m) && BorderPattern(m) && b >= 2
    requires m.width % b == 0 && m.height % b == 0 && m.width >= 2 * b && m.height >= 2 * b
    requires i < m.width / b && j == m.height / b - 1
    ensures CountWindow(m, i * b, j * b, b, 0, b + 1) <= 2 * b
  {
    ColumnPlacement(m.width, b, i);
    BlockPlacement(m.height, b, j);
    TwoBlocks(m.height, b);
    MulMonotone(1, j, b);
    BottomWindow(m, i * b, j * b, b);
  }

  /** The window flush with the bottom edge: `b-1` inner rows, the last row
      of the map, and a row below it. */
  lemma BottomWindow(m: Grid<Angle>, x0: nat, y0: nat, b: nat)
    requires m.Valid() && Quantised(m) && BorderPattern(m) && b >= 2 && m.width >= 2
    requires 0 < y0 && y0 + b == m.height && x0 <= m.width && InnerCount(m.width, x0, b) <= 1
    ensures CountWindow(m, x0, y0, b, 0, b + 1) ==
      (if InnerCount(m.width, x0, b) == 1 then b - 1 else 0) + Min(b + 1, m.width - x0)
  {
    var h := m.height;
    InnerRows(m, x0, y0, b, 0, b - 1);
    BorderRowCount(m, x0, h - 1, b + 1);
    WindowStep(m, x0, y0, b, b - 1);
    OutsideRowCount(m, x0, h, b + 1);
    WindowStep(m, x0, y0, b, b);
  }

  /** The bucket-0 count of block `(i, j)` of the border pattern: `2b+1` for
      the corner block at the origin, at most `2b` for every other block. */
  lemma BorderBlockCount(m: Grid<Angle>, b: nat, i: nat, j: nat)
    requires m.Valid() && Quantised(m) && BorderPattern(m) && b >= 2
    requires m.width % b == 0 && m.height % b == 0 && m.width >= 2 * b && m.height >= 2 * b
    requires i < m.width / b && j < m.height / b
    ensures i == 0 && j == 0 ==> CountWindow(m, i * b, j * b, b, 0, b + 1) == 2 * b + 1
    ensures !(i == 0 && j == 0) ==> CountWindow(m, i * b, j * b, b, 0, b + 1) <= 2 * b
  {
    TwoBlocks(m.height, b);
    if j == 0 {
      TopBlockCount(m, b, i);
    } else if j < m.height / b - 1 {
      MiddleBlockCount(m, b, i, j);
    } else {
      BottomBlockCount(m, b, i, j);
    }
  }

  /** The glyph of block `(i, j)` of the border pattern. */
  lemma BorderBlockGlyph(m: Grid<Angle>, b: nat, i: nat, j: nat)
    requires m.Valid() && Quantised(m) && BorderPattern(m) && b >= 2
    requires m.width % b == 0 && m.height % b == 0 && m.width >= 2 * b && m.height >= 2 * b
    requires i < m.width / b && j < m.height / b
    ensures BlockCell(m, b, i, j) == if i == 0 && j == 0 then '_' else ' '
  {
    BorderBlockCount(m, b, i, j);
    OtherBucketsEmpty(m, i * b, j * b, b, 1, b + 1);
    OtherBucketsEmpty(m, i * b, j * b, b, 2, b + 1);
    OtherBucketsEmpty(m, i * b, j * b, b, 3, b + 1);
    var t := Tally(m, i * b, j * b, b);
    assert t[1] == 0 && t[2] == 0 && t[3] == 0;
    OnlyBucketZero(t, b);
  }

  /** With buckets 1 to 3 empty the glyph is `_` exactly when bucket 0 passes the cutoff. */
  lemma OnlyBucketZero(t: seq<nat>, b: nat)
    requires |t| == 4 && t[1] == 0 && t[2] == 0 && t[3] == 0
    ensures ShaderCell(t, b) == if t[0] > 2 * b then '_' else ' '
  {
    assert Scan(t, 1).angle == 0;
  }

  /** On a uniform image whose sides are multiples of `b >= 2` and at least
      `2b`, the only drawn block is the corner at the origin, whose window
      holds `2b+1` border zeros; every other block has at most `2b`. */
  lemma UniformShaderMap(src: Raster, c: Color, root: int -> real, atan: (int, int) -> real, b: nat)
    requires src.Valid() && ExactRoot(root)
    requires forall y, x :: 0 <= y < src.height && 0 <= x < src.width ==> src.rows[y][x] == c
    requires b >= 2 && src.width % b == 0 && src.height % b == 0
    requires src.width >= 2 * b && src.height >= 2 * b
    ensures Quantised(AngleMapSpec(src, root, atan))
    ensures var s := ShaderMapSpec(AngleMapSpec(src, root, atan), src.width, src.height, b);
      forall j, i :: 0 <= j < s.height && 0 <= i < s.width ==>
        s.rows[j][i] == if i == 0 && j == 0 then '_' else ' '
  {
    var m := AngleMapSpec(src, root, atan);
    UniformAngleMap(src, c, root, atan);
    var s := ShaderMapSpec(m, src.width, src.height, b);
    forall j, i | 0 <= j < s.height && 0 <= i < s.width
      ensures s.rows[j][i] == if i == 0 && j == 0 then '_' else ' '
    {
      BorderBlockGlyph(m, b, i, j);
    }
  }
}
