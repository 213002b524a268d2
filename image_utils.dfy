/** The size arithmetic of `cmd/utils/utils_image.go`: the dimensions
    `DownscaleImage` reports and the canvas `BoundImageToScaleMultiple` builds. */
module ImageUtils {
  import opened GoNumeric
  import opened Grids
  import opened Pixels

  /** The `(width/scale, height/scale)` that `DownscaleImage` returns; the
      resampled image itself comes from a foreign resizer. */
  function DownscaleSize(width: nat, height: nat, scale: nat): (size: (nat, nat))
    requires scale >= 1
    ensures size.0 * scale <= width < (size.0 + 1) * scale
    ensures size.1 * scale <= height < (size.1 + 1) * scale
  {
    (width / scale, height / scale)
  }

  /** `n / s * s`: the largest multiple of `s` not above `n`. */
  function RoundDown(n: nat, s: nat): (m: nat)
    requires s >= 1
    ensures m % s == 0 && m <= n < m + s
  {
    RoundDownFacts(n, s);
    n / s * s
  }

  /** The margin a dimension loses, split at `diff/2`. */
  function StartOffset(diff: nat): nat { diff / 2 }
  function EndOffset(diff: nat): nat { diff - diff / 2 }

  lemma OffsetsSplitDiff(diff: nat)
    ensures StartOffset(diff) + EndOffset(diff) == diff
    ensures StartOffset(diff) <= EndOffset(diff) <= StartOffset(diff) + 1
  {
  }

  /** The copy loop's window: `[start, rebounded - end)` in each dimension. */
  predicate InWindow(w: nat, h: nat, s: nat, x: int, y: int)
    requires s >= 1
  {
    var rw, rh := RoundDown(w, s), RoundDown(h, s);
    StartOffset(w - rw) <= x < rw - EndOffset(w - rw) &&
    StartOffset(h - rh) <= y < rh - EndOffset(h - rh)
  }

  /** Every read of the copy loop is inside the source image. */
  lemma WindowInsideSource(w: nat, h: nat, s: nat, x: int, y: int)
    requires s >= 1 && InWindow(w, h, s, x, y)
    ensures 0 <= x < w && 0 <= y < h
  {
  }

  /** The canvas `BoundImageToScaleMultiple` returns when the image does not
      already fit: the window copied at unshifted coordinates, the rest
      transparent. The canvas is an `image.RGBA`, so each copied pixel keeps
      only the high byte of its channels. */
  function CropSpec(img: Raster, s: nat): (out: Raster)
    requires img.Valid() && s >= 1
    ensures out.Valid() && out.width == RoundDown(img.width, s) && out.height == RoundDown(img.height, s)
  {
    FromFunction(RoundDown(img.width, s), RoundDown(img.height, s),
      (x, y) => if InWindow(img.width, img.height, s, x, y) then Narrow(Pixel(img, x, y)) else Transparent)
  }

  /** `BoundImageToScaleMultiple(img, scalingFactor)`. An image whose sides are
      already multiples comes back as it is; otherwise a canvas of the rounded
      size receives the source pixels of the window, each at its own
      coordinates and narrowed to bytes, and holds only byte-valued colours. */
  method BoundImageToScaleMultiple(img: Raster, scalingFactor: nat) returns (out: Raster)
    requires img.Valid() && scalingFactor >= 1
    ensures img.width % scalingFactor == 0 && img.height % scalingFactor == 0 ==> out == img
    ensures !(img.width % scalingFactor == 0 && img.height % scalingFactor == 0) ==> out == CropSpec(img, scalingFactor)
    ensures out.Valid() && out.width % scalingFactor == 0 && out.height % scalingFactor == 0
    ensures out.width <= img.width < out.width + scalingFactor && out.height <= img.height < out.height + scalingFactor
    ensures !(img.width % scalingFactor == 0 && img.height % scalingFactor == 0) ==>
      StoresBytes(out) &&
      forall y, x :: 0 <= y < out.height && 0 <= x < out.width ==>
        out.rows[y][x] == if InWindow(img.width, img.height, scalingFactor, x, y) then Narrow(img.rows[y][x]) else Transparent
  {
    var s := scalingFactor;
    var width, height := img.width, img.height;
    var reboundedWidth: int, reboundedHeight: int := RoundDown(width, s), RoundDown(height, s);
    var widthDiff, heightDiff := width - reboundedWidth, height - reboundedHeight;
    if widthDiff == 0 && heightDiff == 0 {
      InsideWhenExact(img, s);
      return img;
    }
    out := CropToMultiple(img, s, widthDiff, heightDiff);
    CropSpecPixels(img, s);
    CropStoresBytes(img, s);
  }

  /** The copy of the window into the rounded canvas. */
  method CropToMultiple(img: Raster, s: nat, widthDiff: nat, heightDiff: nat) returns (out: Raster)
    requires img.Valid() && s >= 1
    requires widthDiff == img.width - RoundDown(img.width, s) && heightDiff == img.height - RoundDown(img.height, s)
    ensures out == CropSpec(img, s)
  {
    var reboundedWidth, reboundedHeight := RoundDown(img.width, s), RoundDown(img.height, s);
    var startW, endW := widthDiff / 2, widthDiff - widthDiff / 2;
    var startH, endH := heightDiff / 2, heightDiff - heightDiff / 2;
    out := CopyWindow(img, reboundedWidth, reboundedHeight, startW, reboundedWidth - endW, startH, reboundedHeight - endH);
    Extensionality(out, CropSpec(img, s));
  }

  lemma CropSpecPixels(img: Raster, s: nat)
    requires img.Valid() && s >= 1
    ensures var out := CropSpec(img, s);
      forall y, x :: 0 <= y < out.height && 0 <= x < out.width ==>
        out.rows[y][x] == if InWindow(img.width, img.height, s, x, y) then Narrow(img.rows[y][x]) else Transparent
  {
  }

  /** A fresh transparent `rw` by `rh` canvas and the `y`/`x` loops over the
      window `[x0, x1) x [y0, y1)`, storing each source pixel at the same place. */
  method CopyWindow(img: Raster, rw: nat, rh: nat, x0: nat, x1: int, y0: nat, y1: int) returns (out: Raster)
    requires img.Valid() && rw <= img.width && rh <= img.height && x1 <= rw && y1 <= rh
    ensures out.Valid() && out.width == rw && out.height == rh
    ensures forall j, i :: 0 <= j < rh && 0 <= i < rw ==>
      out.rows[j][i] == if x0 <= i < x1 && y0 <= j < y1 then Narrow(img.rows[j][i]) else Transparent
  {
    out := Fill(rw, rh, Transparent);
    var y := y0;
    while y < y1
      invariant y0 <= y <= Max(y0, y1)
      invariant out.Valid() && out.width == rw && out.height == rh
      invariant forall j, i :: 0 <= j < rh && 0 <= i < rw ==>
        out.rows[j][i] == if x0 <= i < x1 && y0 <= j < y then Narrow(img.rows[j][i]) else Transparent
    {
      out := CopyRow(img, out, y, x0, x1);
      y := y + 1;
    }
  }

  /** The inner `x` loop: `RGBA.Set` of row `y` of the source over `[x0, x1)`. */
  method CopyRow(img: Raster, canvas: Raster, y: int, x0: int, x1: int) returns (out: Raster)
    requires img.Valid() && canvas.Valid()
    requires 0 <= y < canvas.height <= img.height && 0 <= x0 && x1 <= canvas.width <= img.width
    ensures out.Valid() && out.width == canvas.width && out.height == canvas.height
    ensures forall j, i :: 0 <= j < canvas.height && 0 <= i < canvas.width ==>
      out.rows[j][i] == if j == y && x0 <= i < x1 then Narrow(img.rows[j][i]) else canvas.rows[j][i]
  {
    out := canvas;
    var x := x0;
    while x < x1
      invariant x0 <= x <= Max(x0, x1)
      invariant out.Valid() && out.width == canvas.width && out.height == canvas.height
      invariant forall j, i :: 0 <= j < canvas.height && 0 <= i < canvas.width ==>
        out.rows[j][i] == if j == y && x0 <= i < x then Narrow(img.rows[j][i]) else canvas.rows[j][i]
    {
      out := out.Set(x, y, Narrow(Pixel(img, x, y)));
      x := x + 1;
    }
  }

  /** When nothing is cropped the window is the whole image. */
  lemma InsideWhenExact(img: Raster, s: nat)
    requires img.Valid() && s >= 1 && img.width % s == 0 && img.height % s == 0
    ensures forall y, x :: 0 <= y < img.height && 0 <= x < img.width ==> InWindow(img.width, img.height, s, x, y)
  {
    assert RoundDown(img.width, s) == img.width && RoundDown(img.height, s) == img.height;
  }

  /** Every pixel reads back as four stored bytes, as an `image.RGBA` canvas holds. */
  predicate StoresBytes(img: Raster)
    requires img.Valid()
  {
    forall y, x :: 0 <= y < img.height && 0 <= x < img.width ==> Narrow(img.rows[y][x]) == img.rows[y][x]
  }

  /** Narrowing keeps each channel's high byte, so narrowing twice is narrowing once. */
  lemma NarrowIsIdempotent(c: Color)
    ensures Narrow(Narrow(c)) == Narrow(c)
    ensures Hi(Narrow(c).r) == Hi(c.r) && Hi(Narrow(c).g) == Hi(c.g)
    ensures Hi(Narrow(c).b) == Hi(c.b) && Hi(Narrow(c).a) == Hi(c.a)
  {
    HiWiden(Hi(c.r));
    HiWiden(Hi(c.g));
    HiWiden(Hi(c.b));
    HiWiden(Hi(c.a));
  }

  /** The cropped canvas holds only byte-valued colours, so the crop loses
      the low byte of a source richer than `image.RGBA`. */
  lemma {:induction false} CropStoresBytes(img: Raster, s: nat)
    requires img.Valid() && s >= 1
    ensures StoresBytes(CropSpec(img, s))
  {
    var out := CropSpec(img, s);
    forall y, x | 0 <= y < out.height && 0 <= x < out.width
      ensures Narrow(out.rows[y][x]) == out.rows[y][x]
    {
      NarrowIsIdempotent(Pixel(img, x, y));
    }
  }

  /** A 5 by 4 image at scale 4 whose pixel (0, 0) is `color.NRGBA{100, 0, 0, 128}`
      (`RGBA()` gives (12900, 0, 0, 32896)): the crop keeps (0, 0) and
      stores it as (12850, 0, 0, 32896). */
  lemma CropNarrowsSemiTransparent(img: Raster)
    requires img.Valid() && img.width == 5 && img.height == 4
    requires img.rows[0][0] == Color(12900, 0, 0, 32896)
    ensures CropSpec(img, 4).rows[0][0] == Color(12850, 0, 0, 32896)
  {
    assert RoundDown(5, 4) == 4 && RoundDown(4, 4) == 4;
    assert InWindow(5, 4, 4, 0, 0);
  }

  // --------------------------------------------------------------- finding

  /** The crop the offsets are computed for: the rounded canvas filled from
      the source shifted by the start offsets, so that the margins are split
      around a centred picture, stored into the same `image.RGBA` canvas.
      Every read is inside the source. */
  function CentredCropSpec(img: Raster, s: nat): (out: Raster)
    requires img.Valid() && s >= 1
    ensures out.Valid() && out.width == RoundDown(img.width, s) && out.height == RoundDown(img.height, s)
    ensures forall y, x :: 0 <= y < out.height && 0 <= x < out.width ==>
      out.rows[y][x] == Narrow(img.rows[y + StartOffset(img.height - out.height)][x + StartOffset(img.width - out.width)])
  {
    Centred(img, RoundDown(img.width, s), RoundDown(img.height, s))
  }

  function Centred(img: Raster, rw: nat, rh: nat): (out: Raster)
    requires img.Valid() && rw <= img.width && rh <= img.height
    ensures out.Valid() && out.width == rw && out.height == rh
    ensures forall y, x :: 0 <= y < rh && 0 <= x < rw ==>
      out.rows[y][x] == Narrow(img.rows[y + StartOffset(img.height - rh)][x + StartOffset(img.width - rw)])
  {
    var sw, sh := StartOffset(img.width - rw), StartOffset(img.height - rh);
    var out := FromFunction(rw, rh, (x, y) => Narrow(Pixel(img, x + sw, y + sh)));
    assert forall y, x :: 0 <= y < rh && 0 <= x < rw ==>
      out.rows[y][x] == Narrow(Pixel(img, x + sw, y + sh)) && x + sw < img.width && y + sh < img.height;
    out
  }

  /** A 10 by 8 opaque image cropped to multiples of 4: as written, column 0
      of the 8 by 8 result is transparent although the source is opaque there;
      the centred crop keeps every pixel opaque. */
  lemma CropDropsMargins(img: Raster)
    requires img.Valid() && img.width == 10 && img.height == 8
    requires forall y, x :: 0 <= y < 8 && 0 <= x < 10 ==> img.rows[y][x].a == 65535
    ensures CropSpec(img, 4).width == 8 && CropSpec(img, 4).rows[0][0] == Transparent
    ensures forall y, x :: 0 <= y < 8 && 0 <= x < 8 ==> CentredCropSpec(img, 4).rows[y][x].a == 65535
  {
    assert RoundDown(10, 4) == 8 && RoundDown(8, 4) == 8;
    assert !InWindow(10, 8, 4, 0, 0);
    forall y, x | 0 <= y < 8 && 0 <= x < 8
      ensures CentredCropSpec(img, 4).rows[y][x].a == 65535
    {
      assert img.rows[y][x + 1].a == 65535;
    }
  }
}
