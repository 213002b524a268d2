/** The cell loops of `cmd/asciify.go`. Each downscaled pixel becomes one glyph
    drawn in one colour; the font rasteriser is a sink that receives, in loop
    order, the cell position, the glyph and the colour. */
module Asciify {
  import opened GoNumeric
  import opened Grids
  import opened Pixels
  import opened ColorUtils
  import opened Kernels
  import opened Sobel
  import opened ShaderMap
  import opened PostProcessing
  import opened ImageUtils

  /** One `drawCharacter(img, image.Pt(x, y), glyph, face, scaleFactor, colour)` call. */
  datatype Draw = Draw(x: int, y: int, glyph: char, color: Color)

  // ------------------------------------------------------------- the trace

  /** The draws of the first `n` cells of row `y`, left to right. */
  function RowTrace(cell: (int, int) -> Draw, y: int, n: nat): (t: seq<Draw>)
    ensures |t| == n
  {
    if n == 0 then [] else RowTrace(cell, y, n - 1) + [cell(n - 1, y)]
  }

  /** The draws of the first `rows` rows of a `width`-wide grid, row by row. */
  function Trace(cell: (int, int) -> Draw, width: nat, rows: nat): (t: seq<Draw>)
    ensures |t| == rows * width
  {
    if rows == 0 then [] else
      assert rows * width == (rows - 1) * width + width;
      Trace(cell, width, rows - 1) + RowTrace(cell, rows - 1, width)
  }

  lemma {:induction false} RowTraceAt(cell: (int, int) -> Draw, y: int, n: nat, x: nat)
    requires x < n
    ensures RowTrace(cell, y, n)[x] == cell(x, y)
  {
    if x < n - 1 {
      RowTraceAt(cell, y, n - 1, x);
    }
  }

  /** Cell `(x, y)` is draw number `y * width + x`: one draw per cell, in row-major order. */
  lemma {:induction false} TraceAt(cell: (int, int) -> Draw, width: nat, rows: nat, x: nat, y: nat)
    requires x < width && y < rows
    ensures y * width + x < |Trace(cell, width, rows)|
    ensures Trace(cell, width, rows)[y * width + x] == cell(x, y)
  {
    MulMonotone(y + 1, rows, width);
    if y < rows - 1 {
      TraceAt(cell, width, rows - 1, x, y);
      assert |Trace(cell, width, rows - 1)| == (rows - 1) * width;
      MulMonotone(y + 1, rows - 1, width);
    } else {
      RowTraceAt(cell, y, width, x);
      assert |Trace(cell, width, rows - 1)| == y * width;
    }
  }

  /** The nested `y`/`x` loops calling the sink once per cell. */
  method DrawCells(cell: (int, int) -> Draw, width: nat, height: nat) returns (draws: seq<Draw>)
    ensures draws == Trace(cell, width, height)
  {
    draws := [];
    for y := 0 to height
      invariant draws == Trace(cell, width, y)
    {
      for x := 0 to width
        invariant draws == Trace(cell, width, y) + RowTrace(cell, y, x)
      {
        draws := draws + [cell(x, y)];
      }
    }
  }

  // ---------------------------------------------------------- cell decisions

  /** The edge glyph when the shader map has one, the luminance glyph otherwise. */
  function CellGlyph(edge: char, c: Color): (g: char)
    ensures edge != ' ' ==> g == edge
    ensures edge == ' ' ==> g == GetLuminanceCharacter(c) && g in AsciiMap
  {
    if edge != ' ' then edge else GetLuminanceCharacter(c)
  }

  /** `uint(lum / 65535 * float64(len(palette)-1))` for the 8-shade palette. */
  function PaletteIndex(c: Color): (i: nat)
    ensures i <= 7
    ensures i == 7 <==> GetLuminance(c) == 65535.0
  {
    Trunc(GetLuminance(c) / 65535.0 * 7.0)
  }

  lemma PaletteIndexMonotone(c: Color, d: Color)
    requires GetLuminance(c) <= GetLuminance(d)
    ensures PaletteIndex(c) <= PaletteIndex(d)
  {
    TruncMonotone(GetLuminance(c) / 65535.0 * 7.0, GetLuminance(d) / 65535.0 * 7.0);
  }

  /** `GenerateBrightnessPalette(baseColor, 8)`. */
  function Palette(base: Color): (p: seq<Color>)
    ensures |p| == 8 && p[0] == Rgba(0, 0, 0, 255) && p[7] == Rgba(Hi(base.r), Hi(base.g), Hi(base.b), 255)
  {
    PaletteEnds(base, 8);
    seq(8, i requires 0 <= i < 8 => PaletteEntry(base, 8, i))
  }

  /** The call `GenerateBrightnessPalette(baseColor, 8)` of the cell loops. */
  method EightShades(base: Color) returns (palette: seq<Color>)
    ensures palette == Palette(base)
  {
    palette := GenerateBrightnessPalette(base, 8);
  }

  /** A palette shade in monochrome mode, the pixel's bytes otherwise. */
  function CellColor(c: Color, monochrome: bool, palette: seq<Color>): (col: Color)
    requires |palette| == 8
    ensures monochrome ==> col in palette
    ensures !monochrome ==> col == Rgba(Hi(c.r), Hi(c.g), Hi(c.b), Hi(c.a))
  {
    if monochrome then palette[PaletteIndex(c)] else Narrow(c)
  }

  /** The draw for cell `(x, y)` of `AsciifyWithEdges`. */
  function EdgeCell(downscaled: Raster, edgeMap: Grid<char>, palette: seq<Color>, monochrome: bool, x: int, y: int): Draw
    requires downscaled.Valid() && edgeMap.Valid() && |palette| == 8
  {
    var c := Pixel(downscaled, x, y);
    Draw(x, y, CellGlyph(edgeMap.At(x, y, ' '), c), CellColor(c, monochrome, palette))
  }

  /** The edge map of `AsciifyWithEdges`: Sobel angles, then one glyph per `scaleFactor` block. */
  function EdgeMap(source: Raster, scaleFactor: nat, root: int -> real, atan: (int, int) -> real): (e: Grid<char>)
    requires source.Valid() && scaleFactor >= 1
    ensures e.Valid() && e.width == source.width / scaleFactor && e.height == source.height / scaleFactor
  {
    AngleMapIsQuantised(source, root, atan);
    ShaderMapSpec(AngleMapSpec(source, root, atan), source.width, source.height, scaleFactor)
  }

  /** `AsciifyWithEdges` up to the post-effects. The source must have sides
      that are multiples of `scaleFactor` (the shader map indexes `[y/b][x/b]`),
      which makes the edge map exactly as large as the downscaled image, so every
      `edgeMap[y][x]` read is in range. The background is the given colour in
      monochrome mode and black otherwise. */
  method AsciifyWithEdges(source: Raster, downscaled: Raster, scaleFactor: nat, backgroundColor: Color,
                          baseColor: Color, monochrome: bool, numWorkers: int,
                          root: int -> real, atan: (int, int) -> real)
    returns (background: Color, draws: seq<Draw>)
    requires source.Valid() && downscaled.Valid() && scaleFactor >= 1 && numWorkers >= 1
    requires source.width % scaleFactor == 0 && source.height % scaleFactor == 0
    requires (downscaled.width, downscaled.height) == DownscaleSize(source.width, source.height, scaleFactor)
    ensures background == if monochrome then backgroundColor else Black
    ensures var edgeMap := EdgeMap(source, scaleFactor, root, atan);
      edgeMap.width == downscaled.width && edgeMap.height == downscaled.height &&
      draws == Trace((x, y) => EdgeCell(downscaled, edgeMap, Palette(baseColor), monochrome, x, y),
                     downscaled.width, downscaled.height)
  {
    var palette := EightShades(baseColor);
    var angleMap := GetSobelFilter(source, numWorkers, root, atan);
    AngleMapIsQuantised(source, root, atan);
    var edgeMap := OptimizedShaderMap(angleMap, source.width, source.height, scaleFactor);
    background := if monochrome then backgroundColor else Black;
    draws := DrawCells((x, y) => EdgeCell(downscaled, edgeMap, palette, monochrome, x, y),
                       downscaled.width, downscaled.height);
  }

  /** The post-effects on the rendered canvas: bloom `(6, 225, 6)`, then a
      colour burn of 1.2. A bloom threshold of 225 is 57375 once scaled by 255,
      above every brightness, so bloom only rounds the canvas to its bytes. */
  method PostEffects(img: Raster, bloom: bool, burn: bool, expOf: real -> real) returns (out: Raster)
    requires img.Valid() && PositiveExp(expOf)
    ensures out.Valid() && out.width == img.width && out.height == img.height
    ensures forall y, x :: 0 <= y < img.height && 0 <= x < img.width ==>
      out.rows[y][x] ==
        if burn then BurnPixel(img.rows[y][x], 1.2)
        else if bloom then Narrow(img.rows[y][x])
        else img.rows[y][x]
  {
    out := img;
    if bloom {
      out := BloomImage(img, 6.0, expOf, 225.0, 6.0);
    }
    if burn {
      var before := out;
      out := ApplyColorBurn(before, 1.2);
      forall y, x | 0 <= y < img.height && 0 <= x < img.width
        ensures out.rows[y][x] == BurnPixel(img.rows[y][x], 1.2)
      {
        BurnIgnoresLowByte(img.rows[y][x], 1.2);
      }
    }
  }

  /** Burning reads only the high bytes, so it does not see the rounding to bytes. */
  lemma BurnIgnoresLowByte(c: Color, factor: real)
    requires factor >= 0.0
    ensures BurnPixel(Narrow(c), factor) == BurnPixel(c, factor)
  {
    HiWiden(Hi(c.r));
    HiWiden(Hi(c.g));
    HiWiden(Hi(c.b));
    HiWiden(Hi(c.a));
  }

  /** The draw for cell `(x, y)` of `AsciifyImage`. */
  function ImageCell(downscaled: Raster, monochrome: bool, inverted: bool, x: int, y: int): (d: Draw)
    requires downscaled.Valid()
    ensures d.glyph == GetLuminanceCharacter(Pixel(downscaled, x, y))
    ensures monochrome ==> d.color == if inverted then White else Black
    ensures !monochrome ==> d.color == Narrow(Pixel(downscaled, x, y))
  {
    var c := Pixel(downscaled, x, y);
    Draw(x, y, GetLuminanceCharacter(c), if !monochrome then Narrow(c) else if inverted then White else Black)
  }

  /** `AsciifyImage`: luminance glyphs only, over a background that is white
      for inverted monochrome output and black otherwise. */
  method AsciifyImage(source: Raster, downscaled: Raster, scaleFactor: nat, monochrome: bool, inverted: bool)
    returns (background: Color, draws: seq<Draw>)
    requires source.Valid() && downscaled.Valid() && scaleFactor >= 1
    requires (downscaled.width, downscaled.height) == DownscaleSize(source.width, source.height, scaleFactor)
    ensures background == if monochrome && inverted then White else Black
    ensures draws == Trace((x, y) => ImageCell(downscaled, monochrome, inverted, x, y), downscaled.width, downscaled.height)
  {
    background := if monochrome && inverted then White else Black;
    var size := DownscaleSize(source.width, source.height, scaleFactor);
    draws := DrawCells((x, y) => ImageCell(downscaled, monochrome, inverted, x, y), size.0, size.1);
  }
}
