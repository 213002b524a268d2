/** The cell loops of the older root package (`asciify.go`).

    `asciifyImage` there is the live `AsciifyImage` and is modelled by
    `Asciify.AsciifyImage`. `asciifyWithEdges` differs: its shader map is the
    colour image of `computeShaderMap` with blocks of 8 whatever the scale
    factor, a cell's glyph is decoded from that colour's channels, and its
    loops run one row and one column past the downscaled image. */
module LegacyAsciify {
  import opened GoNumeric
  import opened Grids
  import opened Pixels
  import opened ColorUtils
  import opened Kernels
  import opened Sobel
  import opened PostProcessing
  import opened ImageUtils
  import opened Asciify
  import opened LegacySobel
  import LegacyPostProcessing

  /** The block size the root pipeline passes to `computeShaderMap`. */
  const BlockSize: nat := 8

  /** The glyph decoded from an edge colour's 16-bit channels, or the
      luminance glyph when all three are zero. */
  function EdgeGlyph(edge: Color, fallback: char): (g: char)
    ensures edge.r > 0 && edge.g > 0 ==> g == '/'
    ensures edge.r > 0 && edge.g == 0 ==> g == '|'
    ensures edge.r == 0 && edge.g > 0 ==> g == '-'
    ensures edge.r == 0 && edge.g == 0 && edge.b > 0 ==> g == '\\'
    ensures edge.r == 0 && edge.g == 0 && edge.b == 0 ==> g == fallback
  {
    if edge.r > 0 && edge.g > 0 then '/'
    else if edge.r > 0 then '|'
    else if edge.g > 0 then '-'
    else if edge.b > 0 then '\\'
    else fallback
  }

  /** Decoding undoes `getEdgeDirection`: 45 gives `/`, 90 gives `|`, 0 gives
      `-` and 135 gives `\`, while black (any other angle) and the zero colour
      of an unpainted block leave the luminance glyph. */
  lemma DecodeEdgeDirection(a: Angle, fallback: char)
    ensures EdgeGlyph(EdgeDirection(a), fallback) ==
      if a == Deg(45) then '/' else if a == Deg(90) then '|' else if a == Deg(0) then '-'
      else if a == Deg(135) then '\\' else fallback
    ensures EdgeGlyph(Transparent, fallback) == fallback
  {
  }

  /** The draw for cell `(x, y)` of `asciifyWithEdges`. */
  function LegacyEdgeCell(downscaled: Raster, edgeMap: Raster, palette: seq<Color>, monochrome: bool, x: int, y: int): Draw
    requires downscaled.Valid() && edgeMap.Valid() && |palette| == 8
  {
    var c := Pixel(downscaled, x, y);
    Draw(x, y, EdgeGlyph(Pixel(edgeMap, x, y), GetLuminanceCharacter(c)), CellColor(c, monochrome, palette))
  }

  /** `asciifyWithEdges` up to the post-effects. The angle map indexes need a
      square source (or a degenerate one), and the unchecked shader-map reads
      need every block of the `width` by `height` output to lie inside the
      source. The edge map is `width/8` by `height/8`, each block zero or the
      edge colour of an angle of maximal count, and the inclusive loops draw
      `(d_width+1) * (d_height+1)` cells in row-major order. */
  method LegacyAsciifyWithEdges(source: Raster, downscaled: Raster, width: nat, height: nat, scaleFactor: nat,
                                backgroundColor: Color, baseColor: Color, monochrome: bool,
                                root: int -> real, atan: (int, int) -> real)
    returns (background: Color, edgeMap: Raster, draws: seq<Draw>)
    requires source.Valid() && downscaled.Valid() && scaleFactor >= 1
    requires (downscaled.width, downscaled.height) == DownscaleSize(source.width, source.height, scaleFactor)
    requires LoopsInRange(source.width, source.height)
    requires Covers(width, BlockSize, source.width) && Covers(height, BlockSize, source.height)
    ensures background == if monochrome then backgroundColor else Black
    ensures edgeMap.Valid() && edgeMap.width == width / BlockSize && edgeMap.height == height / BlockSize
    ensures forall j, i :: 0 <= j < edgeMap.height && 0 <= i < edgeMap.width ==>
      BlockOutcome(LegacyAngleMapSpec(source, root, atan), BlockSize, i, j, edgeMap.rows[j][i])
    ensures draws == Trace((x, y) => LegacyEdgeCell(downscaled, edgeMap, Palette(baseColor), monochrome, x, y),
                           downscaled.width + 1, downscaled.height + 1)
    ensures |draws| == (downscaled.height + 1) * (downscaled.width + 1)
  {
    var palette := EightShades(baseColor);
    edgeMap := LegacyEdgeMap(source, width, height, root, atan);
    background := if monochrome then backgroundColor else Black;
    draws := DrawInclusive(downscaled, edgeMap, palette, monochrome);
  }

  /** The loops `for y := 0; y <= d_height; y++` and `for x := 0; x <= d_width; x++`. */
  method DrawInclusive(downscaled: Raster, edgeMap: Raster, palette: seq<Color>, monochrome: bool)
    returns (draws: seq<Draw>)
    requires downscaled.Valid() && edgeMap.Valid() && |palette| == 8
    ensures draws == Trace((x, y) => LegacyEdgeCell(downscaled, edgeMap, palette, monochrome, x, y),
                           downscaled.width + 1, downscaled.height + 1)
    ensures |draws| == (downscaled.height + 1) * (downscaled.width + 1)
  {
    var dWidth, dHeight := downscaled.width, downscaled.height;
    draws := DrawCells((x, y) => LegacyEdgeCell(downscaled, edgeMap, palette, monochrome, x, y),
                       dWidth + 1, dHeight + 1);
  }

  /** The edge map of `asciifyWithEdges`: `getSobelFilter`, then `computeShaderMap` with blocks of 8. */
  method LegacyEdgeMap(source: Raster, width: nat, height: nat, root: int -> real, atan: (int, int) -> real)
    returns (edgeMap: Raster)
    requires source.Valid() && LoopsInRange(source.width, source.height)
    requires Covers(width, BlockSize, source.width) && Covers(height, BlockSize, source.height)
    ensures edgeMap.Valid() && edgeMap.width == width / BlockSize && edgeMap.height == height / BlockSize
    ensures forall j, i :: 0 <= j < edgeMap.height && 0 <= i < edgeMap.width ==>
      BlockOutcome(LegacyAngleMapSpec(source, root, atan), BlockSize, i, j, edgeMap.rows[j][i])
  {
    var angleMap := LegacyGetSobelFilter(source, root, atan);
    edgeMap := ComputeShaderMap(angleMap, width, height, BlockSize);
  }

  /** The column and row past the downscaled image read its zero colour:
      the luminance glyph there is `' '`, and in colour mode the glyph is drawn
      in the zero colour. */
  lemma OverrunCell(downscaled: Raster, edgeMap: Raster, palette: seq<Color>, monochrome: bool, x: int, y: int)
    requires downscaled.Valid() && edgeMap.Valid() && |palette| == 8
    requires x == downscaled.width || y == downscaled.height
    ensures var d := LegacyEdgeCell(downscaled, edgeMap, palette, monochrome, x, y);
      d.glyph == EdgeGlyph(Pixel(edgeMap, x, y), ' ') &&
      (!monochrome ==> d.color == Transparent)
  {
  }

  /** The root post-effects: bloom `(1.5, 200, 1.5)`, then a colour burn of
      1.2. The threshold 200 is above any integer average brightness, so bloom
      only rounds the canvas to its bytes. */
  method LegacyPostEffects(img: Raster, bloom: bool, burn: bool, expOf: real -> real) returns (out: Raster)
    requires img.Valid() && PositiveExp(expOf)
    ensures out.Valid() && out.width == img.width && out.height == img.height
    ensures forall y, x :: 0 <= y < img.height && 0 <= x < img.width ==>
      out.rows[y][x] ==
        if burn then BurnPixel(img.rows[y][x], 1.2)
        else if bloom then Narrow(img.rows[y][x])
        else img.rows[y][x]
  {
    out := img;
    if bloom {
      out := LegacyPostProcessing.BloomImage(img, 1.5, expOf, 200.0, 1.5);
    }
    if burn {
      var before := out;
      out := ApplyColorBurn(before, 1.2);
      forall y, x | 0 <= y < img.height && 0 <= x < img.width
        ensures out.rows[y][x] == BurnPixel(img.rows[y][x], 1.2)
      {
        BurnIgnoresLowByte(img.rows[y][x], 1.2);
      }
    }
  }
}
