/** Colours as the pipeline reads them.

    A `Color` holds the four 16-bit channels that Go's `RGBA()` method returns.
    An `image.RGBA` canvas stores bytes: writing `color.RGBA{r, g, b, a}` and
    reading it back yields each byte times 0x101 (`Rgba`), and `c >> 8` recovers
    the byte (`Hi`). */
module Pixels {
  import opened GoNumeric
  import opened Grids

  type Chan16 = c: int | 0 <= c <= 65535

  datatype Color = Color(r: Chan16, g: Chan16, b: Chan16, a: Chan16)

  /** `v | v << 8`, the 16-bit reading of a stored byte. */
  function Widen(v: Byte): Chan16 { v * 257 }

  /** `c >> 8`. */
  function Hi(c: Chan16): Byte { c / 256 }

  lemma HiWiden(v: Byte)
    ensures Hi(Widen(v)) == v
  {
  }

  /** What reading back a stored `color.RGBA{r, g, b, a}` returns. */
  function Rgba(r: Byte, g: Byte, b: Byte, a: Byte): Color {
    Color(Widen(r), Widen(g), Widen(b), Widen(a))
  }

  /** Storing an arbitrary colour into an `image.RGBA` keeps the high byte of each channel. */
  function Narrow(c: Color): Color {
    Rgba(Hi(c.r), Hi(c.g), Hi(c.b), Hi(c.a))
  }

  /** `RGBA()` of an `image.Gray` sample. */
  function GrayColor(y: Byte): Color {
    Color(Widen(y), Widen(y), Widen(y), 65535)
  }

  /** The zero colour, which out-of-range reads and fresh canvases hold. */
  const Transparent: Color := Color(0, 0, 0, 0)
  /** `color.Black` and `color.White`. */
  const Black: Color := Color(0, 0, 0, 65535)
  const White: Color := Color(65535, 65535, 65535, 65535)

  type Raster = Grid<Color>
  type GrayImage = Grid<Byte>

  function Pixel(img: Raster, x: int, y: int): Color
    requires img.Valid()
  {
    img.At(x, y, Transparent)
  }

  function GrayAt(img: GrayImage, x: int, y: int): Byte
    requires img.Valid()
  {
    img.At(x, y, 0)
  }

  /** An `image.Gray` read through the `image.Image` interface. */
  function GrayAsRaster(img: GrayImage): (r: Raster)
    requires img.Valid()
    ensures r.Valid() && r.width == img.width && r.height == img.height
    ensures forall y, x :: 0 <= y < img.height && 0 <= x < img.width ==>
      r.rows[y][x] == GrayColor(img.rows[y][x])
  {
    Grid(img.width, img.height,
      seq(img.height, y requires 0 <= y < img.height =>
        seq(img.width, x requires 0 <= x < img.width => GrayColor(img.rows[y][x]))))
  }

  /** Every pixel has zero red, green and blue. */
  predicate NoColor(img: Raster)
    requires img.Valid()
  {
    forall y, x :: 0 <= y < img.height && 0 <= x < img.width ==>
      img.rows[y][x].r == 0 && img.rows[y][x].g == 0 && img.rows[y][x].b == 0
  }
}
