/** `BoxBlurHorizontal` of `cmd/utils/gaussian_blur.go`: a running-sum box
    filter of radius `r`.

    The source walks flat offsets `y*w + j` but reads them as x coordinates
    of row 0 (`GrayAt(li, 0)`) and writes them as x coordinates of row `y`
    (`SetGray(ti, y, ..)`). So row 0 is blurred, and for every later row the
    offsets lie past the right edge: each read yields 0 and each write is
    dropped. */
module BoxBlur {
  import opened GoNumeric
  import opened Grids
  import opened Pixels

  /** The row-0 sample at position `k`, clamped to the row: positions before it
      read `fv` (position 0), positions after it read `lv` (position `w-1`). */
  function Edge(src: GrayImage, w: nat, k: int): Byte
    requires src.Valid()
  {
    GrayAt(src, if k < 0 then 0 else if k >= w then w - 1 else k, 0)
  }

  /** The sum of `n` clamped row-0 samples starting at position `lo`. */
  function WindowSum(src: GrayImage, w: nat, lo: int, n: nat): (s: int)
    requires src.Valid()
    ensures 0 <= s <= 255 * n
  {
    if n == 0 then 0 else WindowSum(src, w, lo, n - 1) + Edge(src, w, lo + n - 1)
  }

  /** Sliding the window one step drops its first sample and adds the next one. */
  lemma {:induction false} WindowShift(src: GrayImage, w: nat, lo: int, n: nat)
    requires src.Valid() && n >= 1
    ensures WindowSum(src, w, lo + 1, n) == WindowSum(src, w, lo, n) - Edge(src, w, lo) + Edge(src, w, lo + n)
  {
    if n > 1 {
      WindowShift(src, w, lo, n - 1);
    }
  }

  /** `math.Round(S / (2r+1))` for the window `t-r .. t+r`. */
  function BoxValue(src: GrayImage, w: nat, r: nat, t: int): (v: Byte)
    requires src.Valid()
  {
    var n := 2 * r + 1;
    var s := WindowSum(src, w, t - r, n);
    QuotientBetween(s as real, n as real, 0.0, 255.0);
    RoundHalfUp(s as real / n as real)
  }

  /** A constant row is left as it is. */
  lemma {:induction false} ConstantRowIsFixed(src: GrayImage, w: nat, r: nat, t: int, v: Byte)
    requires src.Valid() && w >= 1 && src.width == w && src.height >= 1
    requires forall x :: 0 <= x < w ==> src.rows[0][x] == v
    ensures BoxValue(src, w, r, t) == v
  {
    var n := 2 * r + 1;
    ConstantWindow(src, w, t - r, n, v);
    ExactQuotient(WindowSum(src, w, t - r, n), v, n);
  }

  lemma ExactQuotient(s: int, v: int, n: int)
    requires n > 0 && s == v * n
    ensures s as real / n as real == v as real
  {
    assert s as real == v as real * n as real;
  }

  lemma {:induction false} ConstantWindow(src: GrayImage, w: nat, lo: int, n: nat, v: Byte)
    requires src.Valid() && w >= 1 && src.width == w && src.height >= 1
    requires forall x :: 0 <= x < w ==> src.rows[0][x] == v
    ensures WindowSum(src, w, lo, n) == v * n
  {
    if n > 0 {
      ConstantWindow(src, w, lo, n - 1, v);
      assert Edge(src, w, lo + n - 1) == v;
      assert v * (n - 1) + v == v * n;
    }
  }

  /** What reading flat offset `y*w + k` of row 0 yields. */
  lemma FlatRead(src: GrayImage, w: nat, y: nat, k: int)
    requires src.Valid() && src.width == w && 0 <= k < w
    ensures GrayAt(src, y * w + k, 0) == if y == 0 then Edge(src, w, k) else 0
  {
    if y >= 1 {
      assert y * w >= w by {
        GrowsWith(y, w);
      }
    }
  }

  lemma GrowsWith(y: nat, w: nat)
    requires y >= 1
    ensures y * w >= w
  {
  }

  lemma InverseScale(s: real, n: real)
    requires n > 0.0
    ensures s * (1.0 / n) == s / n
  {
  }

  /** What the row-`y` pass has written once positions `0 .. j-1` are done. */
  ghost predicate RowDone(src: GrayImage, dst: GrayImage, out: GrayImage, w: nat, h: int, r: nat, y: nat, j: int)
    requires src.Valid() && dst.Valid() && out.Valid()
  {
    out.width == w && out.height == h && dst.width == w && dst.height == h &&
    forall yy, x {:trigger out.rows[yy][x]} :: 0 <= yy < h && 0 <= x < w ==>
      out.rows[yy][x] == if y == 0 && yy == 0 && x < j then BoxRow(src, w, r)[x] else dst.rows[yy][x]
  }

  /** Row 0 as the pass leaves it. */
  function BoxRow(src: GrayImage, w: nat, r: nat): (row: seq<Byte>)
    requires src.Valid()
    ensures |row| == w && forall t :: 0 <= t < w ==> row[t] == BoxValue(src, w, r, t)
  {
    seq(w, t => BoxValue(src, w, r, t))
  }

  /** The running sum the source holds: the window ending before position `j`
      of row 0, and 0 on later rows. */
  function Running(src: GrayImage, w: nat, r: nat, y: nat, j: int): real
    requires src.Valid()
  {
    if y == 0 then WindowSum(src, w, j - r - 1, 2 * r + 1) as real else 0.0
  }

  /** `uint8(math.Round(val * iarr))` with `iarr == 1 / (2r+1)`. */
  function Rounded(val: real, r: nat): (v: Byte)
    requires 0.0 <= val <= 255.0 * (2 * r + 1) as real
  {
    var n := (r * 2 + 1) as real;
    InverseScale(val, n);
    QuotientBetween(val, n, 0.0, 255.0);
    RoundHalfUp(val * (1.0 / n))
  }

  /** The running sum, averaged and rounded, is the box value at `j`. */
  lemma RoundedRunning(src: GrayImage, w: nat, r: nat, j: int)
    requires src.Valid()
    ensures Rounded(Running(src, w, r, 0, j + 1), r) == BoxValue(src, w, r, j)
  {
    InverseScale(Running(src, w, r, 0, j + 1), (2 * r + 1) as real);
  }

  /** One write `SetGray(ti, y, round(val * iarr))` at `ti == y*w + j`. */
  method WriteAt(src: GrayImage, dst: GrayImage, out: GrayImage, w: nat, h: int, r: nat, y: nat, j: int, val: real)
    returns (next: GrayImage)
    requires src.Valid() && dst.Valid() && out.Valid() && src.width == w && dst.width == w && src.height == h
    requires 0 <= j < w && RowDone(src, dst, out, w, h, r, y, j) && val == Running(src, w, r, y, j + 1)
    ensures next.Valid() && RowDone(src, dst, next, w, h, r, y, j + 1)
  {
    var v := Rounded(val, r);
    if y == 0 {
      RoundedRunning(src, w, r, j);
    } else {
      GrowsWith(y, w);
    }
    next := out.Set(y * w + j, y, v);
    WriteKeeps(src, dst, out, w, h, r, y, j, y * w + j, v);
  }

  /** A write at position `j` of row 0 (or past the right edge on a later row)
      extends what the pass has written by one position. */
  lemma WriteKeeps(src: GrayImage, dst: GrayImage, out: GrayImage, w: nat, h: int, r: nat, y: nat, j: int, x0: int, v: Byte)
    requires src.Valid() && dst.Valid() && out.Valid() && RowDone(src, dst, out, w, h, r, y, j)
    requires y == 0 ==> 0 <= j < w && x0 == j && v == BoxRow(src, w, r)[j]
    requires y >= 1 ==> x0 >= w
    ensures RowDone(src, dst, out.Set(x0, y, v), w, h, r, y, j + 1)
  {
  }

  /** A window lying wholly before the row holds copies of position 0. */
  lemma {:induction false} LeftWindow(src: GrayImage, w: nat, lo: int, n: nat)
    requires src.Valid() && w >= 1 && lo + n <= 0
    ensures WindowSum(src, w, lo, n) == n * Edge(src, w, 0)
  {
    if n > 0 {
      LeftWindow(src, w, lo, n - 1);
      assert Edge(src, w, lo + n - 1) == Edge(src, w, 0);
      assert (n - 1) * Edge(src, w, 0) + Edge(src, w, 0) == n * Edge(src, w, 0);
    }
  }

  /** `val := (radius+1)*fv`, then the first `radius` samples of the row. */
  method Seed(src: GrayImage, w: nat, h: int, radius: nat, y: nat, fv: Byte) returns (val: real)
    requires src.Valid() && src.width == w && src.height == h && w >= 2 * radius + 1
    requires fv == if y == 0 then Edge(src, w, 0) else 0
    ensures val == Running(src, w, radius, y, 0)
  {
    var ti := y * w;
    LeftWindow(src, w, -(radius as int) - 1, radius + 1);
    val := ((radius + 1) * fv) as real;
    for j := 0 to radius
      invariant val == (if y == 0 then WindowSum(src, w, -(radius as int) - 1, radius + 1 + j) else 0) as real
    {
      FlatRead(src, w, y, j);
      val := val + GrayAt(src, ti + j, 0) as real;
    }
  }

  /** The first loop: the window enters the row, the sample leaving it is `fv`. */
  method EnterLeft(src: GrayImage, dst: GrayImage, out0: GrayImage, w: nat, h: int, radius: nat, y: nat, fv: Byte, val0: real)
    returns (out: GrayImage, val: real)
    requires src.Valid() && dst.Valid() && out0.Valid() && src.width == w && src.height == h
    requires w >= 2 * radius + 1 && fv == (if y == 0 then Edge(src, w, 0) else 0)
    requires val0 == Running(src, w, radius, y, 0) && RowDone(src, dst, out0, w, h, radius, y, 0)
    ensures out.Valid() && val == Running(src, w, radius, y, radius + 1) && RowDone(src, dst, out, w, h, radius, y, radius + 1)
  {
    out, val := out0, val0;
    var ti, ri := y * w, y * w + radius;
    for j := 0 to radius + 1
      invariant ti == y * w + j && ri == y * w + radius + j
      invariant val == Running(src, w, radius, y, j) && out.Valid() && RowDone(src, dst, out, w, h, radius, y, j)
    {
      FlatRead(src, w, y, radius + j);
      WindowShift(src, w, j - radius - 1, 2 * radius + 1);
      val := val + GrayAt(src, ri, 0) as real - fv as real;
      out := WriteAt(src, dst, out, w, h, radius, y, j, val);
      ti := ti + 1;
      ri := ri + 1;
    }
  }

  /** The second loop: one sample enters on the right and one leaves on the left. */
  method Middle(src: GrayImage, dst: GrayImage, out0: GrayImage, w: nat, h: int, radius: nat, y: nat, val0: real)
    returns (out: GrayImage, val: real)
    requires src.Valid() && dst.Valid() && out0.Valid() && src.width == w && src.height == h
    requires w >= 2 * radius + 1
    requires val0 == Running(src, w, radius, y, radius + 1) && RowDone(src, dst, out0, w, h, radius, y, radius + 1)
    ensures out.Valid() && val == Running(src, w, radius, y, w - radius) && RowDone(src, dst, out, w, h, radius, y, w - radius)
  {
    out, val := out0, val0;
    var li, ri := y * w, y * w + radius;
    var ti := y * w + radius + 1;
    li, ri := li, ri + radius + 1;
    for j := radius + 1 to w - radius
      invariant ti == y * w + j && ri == y * w + radius + j && li == y * w + j - radius - 1
      invariant val == Running(src, w, radius, y, j) && out.Valid() && RowDone(src, dst, out, w, h, radius, y, j)
    {
      FlatRead(src, w, y, radius + j);
      FlatRead(src, w, y, j - radius - 1);
      WindowShift(src, w, j - radius - 1, 2 * radius + 1);
      val := val + GrayAt(src, ri, 0) as real - GrayAt(src, li, 0) as real;
      out := WriteAt(src, dst, out, w, h, radius, y, j, val);
      li := li + 1;
      ri := ri + 1;
      ti := ti + 1;
    }
  }

  /** The third loop: the window leaves the row, the sample entering it is `lv`. */
  method LeaveRight(src: GrayImage, dst: GrayImage, out0: GrayImage, w: nat, h: int, radius: nat, y: nat, lv: Byte, val0: real)
    returns (out: GrayImage, val: real)
    requires src.Valid() && dst.Valid() && out0.Valid() && src.width == w && src.height == h
    requires w >= 2 * radius + 1 && lv == (if y == 0 then Edge(src, w, w - 1) else 0)
    requires val0 == Running(src, w, radius, y, w - radius) && RowDone(src, dst, out0, w, h, radius, y, w - radius)
    ensures out.Valid() && RowDone(src, dst, out, w, h, radius, y, w)
  {
    out, val := out0, val0;
    var li := y * w + w - 2 * radius - 1;
    var ti := y * w + w - radius;
    for j := w - radius to w
      invariant ti == y * w + j && li == y * w + j - radius - 1
      invariant val == Running(src, w, radius, y, j) && out.Valid() && RowDone(src, dst, out, w, h, radius, y, j)
    {
      FlatRead(src, w, y, j - radius - 1);
      WindowShift(src, w, j - radius - 1, 2 * radius + 1);
      val := val + lv as real - GrayAt(src, li, 0) as real;
      out := WriteAt(src, dst, out, w, h, radius, y, j, val);
      li := li + 1;
      ti := ti + 1;
    }
  }

  /** The pass over one row `y`: the seed sum and the three loops of the source. */
  method BlurRow(src: GrayImage, dst: GrayImage, w: nat, h: int, radius: nat, y: nat)
    returns (out: GrayImage)
    requires src.Valid() && dst.Valid() && src.width == w && src.height == h && dst.width == w && dst.height == h
    requires w >= 2 * radius + 1 && y < h
    ensures out.Valid() && RowDone(src, dst, out, w, h, radius, y, w)
  {
    var li := y * w;
    FlatRead(src, w, y, 0);
    FlatRead(src, w, y, w - 1);
    var fv, lv := GrayAt(src, li, 0), GrayAt(src, li + w - 1, 0);
    var val := Seed(src, w, h, radius, y, fv);
    out := dst;
    out, val := EnterLeft(src, dst, out, w, h, radius, y, fv, val);
    out, val := Middle(src, dst, out, w, h, radius, y, val);
    out, val := LeaveRight(src, dst, out, w, h, radius, y, lv, val);
  }

  /** `BoxBlurHorizontal(src, dst, w, h, radius)`, returning `dst` after the pass. */
  method BoxBlurHorizontal(src: GrayImage, dst: GrayImage, w: nat, h: int, radius: nat) returns (out: GrayImage)
    requires src.Valid() && dst.Valid() && src.width == w && src.height == h && dst.width == w && dst.height == h
    requires w >= 2 * radius + 1
    ensures out.Valid() && out.width == w && out.height == h
    ensures h >= 1 ==> forall t :: 0 <= t < w ==> out.rows[0][t] == BoxValue(src, w, radius, t)
    ensures forall y, x :: 1 <= y < h && 0 <= x < w ==> out.rows[y][x] == dst.rows[y][x]
    ensures out == AsWritten(src, dst, radius)
  {
    out := dst;
    for y := 0 to h
      invariant out.Valid() && out.width == w && out.height == h
      invariant forall yy, x {:trigger out.rows[yy][x]} :: 0 <= yy < h && 0 <= x < w ==>
        out.rows[yy][x] == if yy == 0 && y >= 1 then BoxValue(src, w, radius, x) else dst.rows[yy][x]
    {
      ghost var before := out;
      out := BlurRow(src, out, w, h, radius, y);
      forall yy, x | 0 <= yy < h && 0 <= x < w
        ensures out.rows[yy][x] == if yy == 0 && y + 1 >= 1 then BoxValue(src, w, radius, x) else dst.rows[yy][x]
      {
        assert out.rows[yy][x] == if y == 0 && yy == 0 then BoxRow(src, w, radius)[x] else before.rows[yy][x];
      }
    }
    Extensionality(out, AsWritten(src, dst, radius));
  }

  // ---------------------------------------------------------------- the flat offsets

  /** What the pass leaves in `dst`: row 0 blurred, every other row untouched. */
  function AsWritten(src: GrayImage, dst: GrayImage, r: nat): (out: GrayImage)
    requires src.Valid() && dst.Valid()
    ensures out.Valid() && out.width == dst.width && out.height == dst.height
  {
    FromFunction(dst.width, dst.height, (x, y) => if y == 0 then BoxValue(src, src.width, r, x) else GrayAt(dst, x, y))
  }

  /** Row `y` of an image as a one-row image. */
  function RowImage(src: GrayImage, y: nat): (row: GrayImage)
    requires src.Valid() && y < src.height
    ensures row.Valid() && row.width == src.width && row.height == 1 && row.rows[0] == src.rows[y]
  {
    Grid(src.width, 1, [src.rows[y]])
  }

  /** The pass the offsets `y*w` are computed for: each row filtered on its own
      clamped samples, as row 0 is. */
  function IntendedHorizontal(src: GrayImage, r: nat): (out: GrayImage)
    requires src.Valid()
    ensures out.Valid() && out.width == src.width && out.height == src.height
    ensures forall y, x :: 0 <= y < src.height && 0 <= x < src.width ==>
      out.rows[y][x] == BoxValue(RowImage(src, y), src.width, r, x)
  {
    FromFunction(src.width, src.height,
      (x, y) => if 0 <= y < src.height then BoxValue(RowImage(src, y), src.width, r, x) else 0)
  }

  /** The intended pass leaves every constant row as it is, whichever row it is. */
  lemma IntendedKeepsConstantRows(src: GrayImage, r: nat, y: nat, v: Byte)
    requires src.Valid() && src.width >= 1 && y < src.height
    requires forall x :: 0 <= x < src.width ==> src.rows[y][x] == v
    ensures forall x :: 0 <= x < src.width ==> IntendedHorizontal(src, r).rows[y][x] == v
  {
    forall x | 0 <= x < src.width
      ensures IntendedHorizontal(src, r).rows[y][x] == v
    {
      ConstantRowIsFixed(RowImage(src, y), src.width, r, x, v);
    }
  }

  /** On a 3 by 2 image of 100s with radius 1 and a fresh `dst`, the pass as
      written leaves row 1 at 0, where the intended pass writes 100. */
  lemma LaterRowsNotBlurred(src: GrayImage, dst: GrayImage)
    requires src == Grid(3, 2, [[100, 100, 100], [100, 100, 100]]) && dst == Fill(3, 2, 0)
    ensures AsWritten(src, dst, 1).rows[1][0] == 0
    ensures IntendedHorizontal(src, 1).rows[1][0] == 100
  {
    IntendedKeepsConstantRows(src, 1, 1, 100);
  }
}
