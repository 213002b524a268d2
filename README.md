# asciify in Dafny

asciify turns a picture into ASCII art drawn on an image. The picture is
shrunk by a scale factor and each remaining pixel becomes one glyph. By
default the glyph comes from a ten-step luminance ramp. In the edge mode a
Sobel filter measures the gradient direction, and blocks with a dominant
direction get a line glyph (`_ / | \`) instead. The glyphs are drawn either
in the pixel's own colour or in one of eight shades of a base colour. Bloom
and colour burn can then be applied to the rendered canvas.

This project models the live pipeline in `cmd/` and `cmd/utils/`. It also
models the older pipeline that still sits in the root package, as the
`Legacy*` modules. A root function that is identical to its live
counterpart is not modelled twice: the legacy modules reuse the live one.

How the model stands in for Go:

- **Images are values.** An image is a `Grids.Grid`: a width, a height and
  rows of pixels.
  - `At` returns the zero pixel outside the bounds, as `image.RGBA.At`,
    `image.NRGBA.At` and `image.RGBA64.At` do. Other decoded types read
    differently there (see "## Left out").
  - `Set` ignores writes outside the bounds, as `image.RGBA.Set` does.
  - Each loop that fills a canvas is a method that reassigns a local grid.
    Its contract ties the result to a specification function.
- **Colours are 16-bit.** A `Pixels.Color` holds what `RGBA()` returns.
  - An RGBA canvas stores each byte times 257.
  - `Hi` is `>> 8`.
  - Gray images hold bytes.
- **Angle-map entries are `Undefined | Deg(d)`.** `Undefined` is NaN.
- **Floats are exact reals.**
  - `Trunc` models Go's `int(x)`.
  - `ToByte` models `uint8(x)` on an in-range value.
  - `math.Sqrt`, `math.Atan2` and `math.Exp` are function parameters
    (`root`, `atan`, `expOf`). A lemma that needs an exact square root or a
    positive exponential says so in its `requires`.
- **Drawing is a trace.** Font rendering is not modelled. A pipeline returns
  its background colour and the sequence of `drawCharacter` calls it makes,
  one `Draw(x, y, glyph, colour)` per cell, in row-major order.
- **Workers run one after another.** The Sobel workers of `getSobelFilter`
  write disjoint row ranges, so the model runs them in sequence. The worker
  count is a parameter, and lemmas show that the row ranges partition the
  interior rows.

## Model

| member | source | states |
|---|---|---|
| ColorUtils.GetLuminance | cmd/utils/utils_color.go:48-53 | BT.709 luma of the 16-bit channels: stays in [0, 65535] and equals the channel on a gray pixel |
| ColorUtils.LuminanceMonotone | cmd/utils/utils_color.go:48-53 | raising no channel lowers the luminance |
| ColorUtils.GlyphIndex | cmd/utils/utils_color.go:55-61 | the ramp index `uint(lum/65535*9)` is below 10, and it is 9 exactly at full luminance |
| ColorUtils.GlyphIndexMonotone | cmd/utils/utils_color.go:55-61 | a brighter luminance never gets an earlier ramp index |
| ColorUtils.GetLuminanceCharacter | cmd/utils/utils_color.go:55-61 | the glyph is drawn from `asciiMap`: black gives `' '` and white gives `'@'` |
| ColorUtils.LuminanceCharacterMonotone | cmd/utils/utils_color.go:55-61 | the glyph chosen is monotone in luminance |
| ColorUtils.LuminanceToBrightness | cmd/utils/utils_color.go:19-28 | at or below the knee 216/24389 the curve is `lum*24389/27`, which lies in [0, 8] |
| ColorUtils.BrightnessBranchesMeet | cmd/utils/utils_color.go:19-28 | given an exact cube root, the curve is at most 8 exactly when the linear branch is taken, so the two branches meet at the knee |
| ColorUtils.HexToByte | cmd/utils/utils_color.go:73-84 | `ok` holds exactly for `0-9a-fA-F`; the value is below 16 and is 0 on an error |
| ColorUtils.HexDigitCaseInsensitive | cmd/utils/utils_color.go:73-84 | `A-F` decode like `a-f` |
| ColorUtils.Pair | cmd/utils/utils_color.go:87-90 | a two-digit byte is `16*hi + lo` and is valid exactly when both digits are |
| ColorUtils.Single | cmd/utils/utils_color.go:91-94 | a one-digit channel is `17*d` and is valid exactly when the digit is |
| ColorUtils.ParseHexColorFast | cmd/utils/utils_color.go:66-99 | alpha is always 255; no `#` or a length other than 4 or 7 gives an error with zero channels; otherwise there is no error exactly when every digit is hex |
| ColorUtils.FormatParseRoundTrip | cmd/utils/utils_color.go:66-99 | `#rrggbb` printed from a byte triple parses back to that triple with no error |
| ColorUtils.ShortFormIsDoubledLongForm | cmd/utils/utils_color.go:87-94 | `#rgb` parses exactly like `#rrggbb`, errors included |
| Sobel.QuantizeAngle | cmd/sobel_filter.go:217-229 | every normalised angle is one of 0, 45, 90 and 135 |
| Sobel.QuantizeAntipodal | cmd/sobel_filter.go:217-229 | an angle and its opposite fall into the same line class, at the breakpoints too |
| Sobel.EdgeDirection | cmd/sobel_filter.go:13-31 | 0 gives green, 45 yellow, 90 red, 135 blue; NaN and every other value give black |
| Sobel.ChunksCoverHeight | cmd/sobel_filter.go:166-173 | `numWorkers * chunks >= height` |
| Sobel.ChunkOfCovers | cmd/sobel_filter.go:166-180 | every interior row lies in some worker's range `[max(w*chunks,1), min((w+1)*chunks,height-1))` |
| Sobel.ChunksDisjoint | cmd/sobel_filter.go:166-180 | no row lies in two workers' ranges |
| Sobel.ChunksPartitionInterior | cmd/sobel_filter.go:166-180 | the worker ranges are pairwise disjoint and their union is exactly rows 1 to height-2 |
| Sobel.WeightsAreSobelTables | cmd/sobel_filter.go:142-152 | the weights used are `Gx[dx+1][dy+1]` and `Gy[dx+1][dy+1]` of the source's tables |
| Sobel.Convolve | cmd/sobel_filter.go:184-190 | the two tap loops compute `pixel_x` and `pixel_y`: the sums of the truncated weighted 8-bit luminances |
| Sobel.AngleMapSpec | cmd/sobel_filter.go:161-205 | the finished map has the source's size; border entries keep the 0.0 of `make`; interior entries are the thresholded, quantised angles |
| Sobel.ThresholdIsIntegerTest | cmd/sobel_filter.go:193-201 | with an exact root, `min(255, int(sqrt(n))) >= 50` holds exactly when `n >= 2500` |
| Sobel.EntryDefinedIff | cmd/sobel_filter.go:193-205 | an interior entry is defined (not NaN) exactly when `pixel_x^2 + pixel_y^2 >= 2500` |
| Sobel.SumOfSquares | cmd/sobel_filter.go:193 | `pixel_x*pixel_x + pixel_y*pixel_y` is never negative |
| Sobel.RootAt | cmd/sobel_filter.go:193 | an exact square root squares back to its integer argument |
| Sobel.TapsCancel | cmd/sobel_filter.go:184-190 | two taps of equal luminance and opposite weight cancel, since `int(-v) == -int(v)` |
| Sobel.ZeroTap | cmd/sobel_filter.go:184-190 | a tap of weight zero adds nothing |
| Sobel.ConstantNeighbourhoodHasNoGradient | cmd/sobel_filter.go:184-190 | a flat 3x3 neighbourhood has `pixel_x == pixel_y == 0` |
| Sobel.ConstantNeighbourhoodIsUndefined | cmd/sobel_filter.go:184-205 | so its angle entry is NaN |
| Sobel.NoGradientIsUndefined | cmd/sobel_filter.go:193-205 | a zero gradient has magnitude 0, below the threshold, so the entry is NaN |
| Sobel.FillRow | cmd/sobel_filter.go:180-205 | the `x` loop writes the specified entry at columns 1 to width-2 of row `y` and changes nothing else |
| Sobel.FillChunk | cmd/sobel_filter.go:176-210 | one worker writes the specified entries on its rows and changes nothing else |
| Sobel.GetSobelFilter | cmd/sobel_filter.go:139-215 | the angle map produced by all the workers equals `AngleMapSpec`, whatever the worker count |
| ShaderMap.AngleMapIsQuantised | cmd/sobel_filter.go:161-205 | every angle-map entry is NaN or a line class, so the bucket index `int(a)/45` is within 0 to 3 |
| ShaderMap.Bucket | cmd/sobel_filter.go:64-73 | a sample goes to bucket -1 (skipped: out of range or NaN) or to bucket 0 to 3 |
| ShaderMap.Tally | cmd/sobel_filter.go:61-75 | `angleBuckets` has four counts after the `(b+1)x(b+1)` window |
| ShaderMap.Scan | cmd/sobel_filter.go:76-84 | the strict-`>` scan returns a count no smaller than any bucket's, at the lowest bucket to reach it, or (0, 0) when every bucket is empty |
| ShaderMap.ScanFindsMaximum | cmd/sobel_filter.go:76-84 | over four buckets the scan reports a real bucket together with its own count |
| ShaderMap.ShaderCell | cmd/sobel_filter.go:57-90 | a block's glyph is `' '` exactly when no bucket exceeds `2b`; otherwise it is `angleConversions` at the dominant bucket |
| ShaderMap.ShaderMapSpec | cmd/sobel_filter.go:48-95 | the shader map has `height/b` rows of `width/b` glyphs |
| ShaderMap.BlockGlyph | cmd/sobel_filter.go:61-90 | the bucket loops, the scan and the cutoff of one block give its `ShaderCell` |
| ShaderMap.CountWindowRow | cmd/sobel_filter.go:63-74 | the `dx` loop adds row `dy` of the window to every bucket count |
| ShaderMap.ScanBuckets | cmd/sobel_filter.go:76-84 | the loop over the buckets computes `Scan` |
| ShaderMap.FillBlockRow | cmd/sobel_filter.go:59-91 | the `x` loop writes block row `y/b` with the block glyphs and changes no other row |
| ShaderMap.OptimizedShaderMap | cmd/sobel_filter.go:48-95 | the returned map equals `ShaderMapSpec` |
| ShaderMap.UniformAngleMap | cmd/sobel_filter.go:161-205 | the angle map of a one-colour image is 0.0 on the border and NaN inside |
| ShaderMap.BorderBlockCount | cmd/sobel_filter.go:61-75 | on that pattern, block (0,0) collects `2b+1` samples in bucket 0 and every other block at most `2b` |
| ShaderMap.BorderBlockGlyph | cmd/sobel_filter.go:61-90 | so block (0,0) gets `_` and every other block `' '` |
| ShaderMap.UniformShaderMap | cmd/sobel_filter.go:48-95 | a one-colour image whose sides are multiples of `b >= 2` and at least `2b` has one `_` in the corner and blanks everywhere else |
| Kernels.KernelSize | cmd/utils/gaussian_blur.go:39 | `int(ceil(3σ)*2+1)` is odd, with half-width `ceil(3σ)` |
| Kernels.RawGaussian | cmd/utils/gaussian_blur.go:44-131 | the unnormalised weights have the requested length |
| Kernels.NormaliseSumsToOne | cmd/utils/gaussian_blur.go:50-52 | dividing each weight by the sum makes the weights sum to exactly 1 |
| Kernels.RawGaussianSymmetric | cmd/utils/gaussian_blur.go:42-47 | for an odd size the weights are symmetric about the centre |
| Kernels.GaussianWeights | cmd/utils/gaussian_blur.go:38-55 | the kernel `GaussianKernel` returns has length `KernelSize(σ)` |
| Kernels.GaussianKernel | cmd/utils/gaussian_blur.go:38-55 | the in-place fill and divide give `GaussianWeights`: length `2*ceil(3σ)+1`, symmetric, positive, summing to 1 |
| Kernels.NormaliseKernel | cmd/utils/gaussian_blur.go:42-52 | the divided slice is the specified kernel, symmetric, positive and summing to 1 |
| Kernels.PolynomialGaussianKernel | cmd/utils/gaussian_blur.go:126-133 | there are `2r+1` unnormalised weights at offsets `-r..r`, symmetric and positive |
| Kernels.AdjustKernelValue | cmd/utils/gaussian_blur.go:170-173 | the adjusted value is the input or one less, at least 1, and truncates to an odd integer |
| Kernels.BoxKernel | cmd/utils/gaussian_blur.go:169-186 | `nBoxes` sizes: the first `thresh` take the smaller odd size and the rest the next one, so every size is odd and positive and the sizes never decrease |
| Kernels.TwoSizes | cmd/utils/gaussian_blur.go:177-184 | a run of one odd size followed by the next odd size is odd-valued and non-decreasing |
| Kernels.BoxRadiusExact | cmd/utils/gaussian_blur.go:292 | for an odd box size, `2*((size-1)/2)+1` is that size |
| Kernels.GaussianBlurApproxRadii | cmd/utils/gaussian_blur.go:287-292 | the three radii `GaussianBlurApprox` passes on are non-negative and non-decreasing, and each pass spans exactly its box size |
| BoxBlur.WindowSum | cmd/utils/gaussian_blur.go:207-242 | a window of `n` clamped samples sums to between 0 and `255n` |
| BoxBlur.WindowShift | cmd/utils/gaussian_blur.go:227-233 | sliding the window drops its first sample and adds the next one |
| BoxBlur.ConstantRowIsFixed | cmd/utils/gaussian_blur.go:207-242 | the box value of a constant row is that constant |
| BoxBlur.FlatRead | cmd/utils/gaussian_blur.go:212-236 | reading flat index `y*w+k` as an x coordinate of row 0 yields row 0's sample when `y == 0` and the zero gray otherwise |
| BoxBlur.BoxRow | cmd/utils/gaussian_blur.go:207-242 | row 0 as the pass leaves it holds the rounded window averages |
| BoxBlur.RoundedRunning | cmd/utils/gaussian_blur.go:222-237 | `round(val*iarr)` of the running sum is the box value at that position |
| BoxBlur.WriteAt | cmd/utils/gaussian_blur.go:222-237 | one `SetGray(ti, y, ..)` extends the finished positions by one |
| BoxBlur.Seed | cmd/utils/gaussian_blur.go:211-218 | `(radius+1)*fv` plus the first `radius` samples is the running sum before the first write |
| BoxBlur.EnterLeft | cmd/utils/gaussian_blur.go:220-225 | the first loop writes positions `0..radius` and keeps the running sum |
| BoxBlur.Middle | cmd/utils/gaussian_blur.go:227-233 | the second loop writes up to `w-radius` and keeps the running sum |
| BoxBlur.LeaveRight | cmd/utils/gaussian_blur.go:235-240 | the third loop writes the last `radius` positions |
| BoxBlur.BlurRow | cmd/utils/gaussian_blur.go:210-241 | one pass of the `y` loop finishes its row |
| BoxBlur.BoxBlurHorizontal | cmd/utils/gaussian_blur.go:207-242 | row 0 of `dst` becomes the rounded box averages of row 0, and every other row of `dst` is left as it was (`AsWritten`) |
| BoxBlur.IntendedHorizontal | cmd/utils/gaussian_blur.go:207-242 | the intended pass: every row is filtered on its own clamped samples, as row 0 is |
| BoxBlur.IntendedKeepsConstantRows | cmd/utils/gaussian_blur.go:207-242 | the intended pass leaves every constant row as it is |
| BoxBlur.LaterRowsNotBlurred | cmd/utils/gaussian_blur.go:210-240 | on a 3x2 image of 100s with radius 1, the pass as written leaves row 1 at 0, where the intended pass writes 100 |
| GaussianBlur.Taps | cmd/utils/gaussian_blur.go:71-111 | the tap sums skip the taps the guard rejects, and each channel sum stays within `[0, 255*weight]` |
| GaussianBlur.AccumulateTaps | cmd/utils/gaussian_blur.go:71-111 | the tap loop computes `Taps` |
| GaussianBlur.Pass | cmd/utils/gaussian_blur.go:66-121 | a pass writes the normalised colour with alpha 255 at columns `[x0, x1)` of every row and leaves the rest zero |
| GaussianBlur.PassRow | cmd/utils/gaussian_blur.go:67-91 | the `x` loop writes row `y` of the pass and changes no other row |
| GaussianBlur.BlurPass | cmd/utils/gaussian_blur.go:66-92 | the nested loops produce `Pass` |
| GaussianBlur.FastSpec | cmd/utils/gaussian_blur.go:57-124 | both passes write columns `[k, width-k)`, and the vertical guard compares `y+dy` with the width |
| GaussianBlur.FastGaussianBlur | cmd/utils/gaussian_blur.go:57-124 | the result is `FastSpec` with the normalised kernel, keeps the bounds, and has alpha 255 exactly on the written columns |
| GaussianBlur.PolynomialGaussianBlur | cmd/utils/gaussian_blur.go:135-166 | one row pass over every column with the raw weights of radius `ceil(3σ)`; alpha is 255 everywhere |
| GaussianBlur.TapsBetween | cmd/utils/gaussian_blur.go:71-81 | if every accepted tap's channel is within `[lo, hi]`, the channel sum is within `[lo*weight, hi*weight]` |
| GaussianBlur.RowPassBetween | cmd/utils/gaussian_blur.go:66-166 | a row pass writes a channel value between the least and the greatest of the taps it reads |
| GaussianBlur.PolynomialKeepsUniformRow | cmd/utils/gaussian_blur.go:135-166 | a row whose channel is constant keeps that channel |
| GaussianBlur.PassKeepsNoColor | cmd/utils/gaussian_blur.go:66-121 | a pass over an image with no colour has no colour |
| GaussianBlur.FastKeepsNoColor | cmd/utils/gaussian_blur.go:57-124 | so does `FastGaussianBlur` |
| GaussianBlur.VerticalGuardUsesWidth | cmd/utils/gaussian_blur.go:102 | on a 3x1 white image with kernel (1/4, 1/2, 1/4), the vertical pass counts taps below the image because its guard uses the width, and darkens the centre to 170 |
| GaussianBlur.IntendedFastSpec | cmd/utils/gaussian_blur.go:96-121 | the intended blur: the vertical guard tests `y+dy` against the height |
| GaussianBlur.ColumnPassBetween | cmd/utils/gaussian_blur.go:96-121 | a column pass guarded by the height writes each channel between the least and the greatest of the taps it reads |
| GaussianBlur.IntendedFastKeepsUniform | cmd/utils/gaussian_blur.go:57-124 | the intended blur keeps a uniform channel unchanged on every column it writes |
| GaussianBlur.IntendedKeepsWhiteRow | cmd/utils/gaussian_blur.go:96-121 | on the 3x1 white image the intended blur keeps the centre at 255 |
| GaussianBlur.GridTaps | cmd/utils/gaussian_blur.go:24-31 | the 2-D tap sum of the gray blur keeps `sum <= 255*weight` |
| GaussianBlur.PerfectSpec | cmd/utils/gaussian_blur.go:11-36 | the gray canvas has the image's bounds and is written only where `x < width-k` and `y < height-k` |
| GaussianBlur.AccumulateRow | cmd/utils/gaussian_blur.go:25-30 | the `dx` loop of one kernel row computes `RowTaps` |
| GaussianBlur.AccumulateSquare | cmd/utils/gaussian_blur.go:24-31 | the `dy` loop computes `GridTaps` |
| GaussianBlur.PerfectRow | cmd/utils/gaussian_blur.go:20-33 | the `x` loop writes row `y` and changes nothing else |
| GaussianBlur.PerfectGaussianBlur | cmd/utils/gaussian_blur.go:11-36 | the result equals `PerfectSpec` with the normalised kernel |
| GaussianBlur.PerfectOfNoColor | cmd/utils/gaussian_blur.go:11-36 | the 2-D gray blur of an image with no colour is black everywhere |
| PostProcessing.Factor | cmd/utils/utils_postprocessing.go:15 | `i/(shades-1)` lies in [0, 1] |
| PostProcessing.Shade | cmd/utils/utils_postprocessing.go:16-19 | a shaded channel never exceeds the base channel |
| PostProcessing.GenerateBrightnessPalette | cmd/utils/utils_postprocessing.go:9-23 | `shades` opaque entries, running from black to the base colour's bytes |
| PostProcessing.PaletteEnds | cmd/utils/utils_postprocessing.go:9-23 | the first shade is black and the last is the base colour's bytes |
| PostProcessing.ShadeMonotone | cmd/utils/utils_postprocessing.go:15-19 | shades grow with the index and never pass the base channel |
| PostProcessing.SoftThreshold | cmd/utils/utils_postprocessing.go:61-66 | 0 below the threshold; in [0, 1] from the threshold up to 255 |
| PostProcessing.SoftThresholdAtFull | cmd/utils/utils_postprocessing.go:61-66 | full brightness gives factor 1 |
| PostProcessing.SoftThresholdMonotone | cmd/utils/utils_postprocessing.go:61-66 | the factor never decreases with brightness |
| PostProcessing.Brightness8 | cmd/utils/utils_postprocessing.go:77 | the 8-bit brightness lies in [0, 255] |
| PostProcessing.Dim | cmd/utils/utils_postprocessing.go:79-84 | a scaled channel never exceeds the original |
| PostProcessing.HighlightSpec | cmd/utils/utils_postprocessing.go:69-89 | each pixel has its channels scaled by the soft-threshold factor and keeps its alpha byte |
| PostProcessing.ExtractHighlights | cmd/utils/utils_postprocessing.go:69-89 | the result equals `HighlightSpec`; every channel is dimmed; a threshold above 1 leaves no colour |
| PostProcessing.HighlightKeepsAlphaAndDims | cmd/utils/utils_postprocessing.go:77-84 | a highlight pixel keeps its alpha and no channel grows |
| PostProcessing.HighlightsVanish | cmd/utils/utils_postprocessing.go:76-84 | above a threshold of 1 the scaled threshold exceeds every brightness, so nothing is extracted |
| PostProcessing.Clamp | cmd/utils/utils_postprocessing.go:91-99 | the result lies in `[min, max]` and is `val` when `val` already does |
| PostProcessing.MergeWithoutBloom | cmd/utils/utils_postprocessing.go:110-112 | a zero bloom channel leaves the base channel unchanged |
| PostProcessing.MergeSpec | cmd/utils/utils_postprocessing.go:101-118 | the merged image has the base's bounds; each pixel blends its channels and takes its alpha from the base |
| PostProcessing.MergeImages | cmd/utils/utils_postprocessing.go:101-118 | the result equals `MergeSpec`; with a colourless bloom it is the base's own bytes |
| PostProcessing.MergeNoColor | cmd/utils/utils_postprocessing.go:101-118 | merging a bloom with no colour gives back the base's bytes |
| PostProcessing.TintChannel | cmd/utils/utils_postprocessing.go:130-133 | a tinted channel never exceeds the original, and full tint keeps it |
| PostProcessing.Tinted | cmd/utils/utils_postprocessing.go:130-133 | `v*t/255` lies between 0 and `v`, and is `v` at full tint |
| PostProcessing.TintImage | cmd/utils/utils_postprocessing.go:120-138 | every channel is scaled by the tint byte over 255, and alpha is kept |
| PostProcessing.BloomImage | cmd/utils/utils_postprocessing.go:140-145 | the result equals the highlights, blurred and merged back; above a threshold of 1 the image comes back as its own bytes |
| PostProcessing.ColorBurn | cmd/utils/utils_postprocessing.go:160-166 | a factor of at least 1 never darkens a channel, and a factor of 1 keeps it |
| PostProcessing.Amplified | cmd/utils/utils_postprocessing.go:161 | `v*factor` is never negative and, for a factor of at least 1, at least `v` |
| PostProcessing.ColorBurnMonotone | cmd/utils/utils_postprocessing.go:160-166 | burning preserves the order of channel values |
| PostProcessing.ApplyColorBurn | cmd/utils/utils_postprocessing.go:147-158 | every channel is burned, and alpha is kept |
| DifferenceOfGaussians.DogPixel | cmd/difference_of_gaussians.go:18-30 | the pixel is 0 or 255, and 255 exactly when `(1+tau)*lum1 - tau*lum2 > threshold*255` |
| DifferenceOfGaussians.DogSpec | cmd/difference_of_gaussians.go:10-34 | the binarised image has the source's bounds and holds only 0 and 255 |
| DifferenceOfGaussians.Neighbourhood | cmd/difference_of_gaussians.go:46-50 | the `ky`/`kx` loops collect nine values |
| DifferenceOfGaussians.MedianSpec | cmd/difference_of_gaussians.go:37-58 | interior pixels are the median of their 3x3 neighbourhood, and border pixels stay 0 |
| DifferenceOfGaussians.MedianFilter | cmd/difference_of_gaussians.go:37-58 | the filter's output equals `MedianSpec` |
| DifferenceOfGaussians.MedianRow | cmd/difference_of_gaussians.go:44-55 | the `x` loop writes row `y`'s medians and changes nothing else |
| DifferenceOfGaussians.Collect | cmd/difference_of_gaussians.go:45-50 | the appended pixels are exactly the neighbourhood, row by row |
| DifferenceOfGaussians.DifferenceOfGaussians | cmd/difference_of_gaussians.go:10-34 | the edges are the median filter of the binarised difference of the two fast blurs, and are binary |
| DifferenceOfGaussians.MedianKeepsBinary | cmd/difference_of_gaussians.go:37-58 | a binary image stays binary under the median filter |
| DifferenceOfGaussians.MedianOfConstantNeighbourhood | cmd/difference_of_gaussians.go:37-58 | a constant 3x3 neighbourhood filters to that constant |
| DifferenceOfGaussians.MedianSplitsNeighbourhood | cmd/difference_of_gaussians.go:37-66 | at least five neighbours are at most the filtered value, and at least five are at least it |
| Median.Insert | cmd/difference_of_gaussians.go:61-66 | inserting keeps a sequence sorted and adds one occurrence |
| Median.Sort | cmd/difference_of_gaussians.go:62 | a sorted permutation of the input |
| Median.SortedUnique | cmd/difference_of_gaussians.go:62 | a multiset of bytes has only one sorted arrangement, so any correct sort gives the same slice |
| Median.MedianOf | cmd/difference_of_gaussians.go:61-66 | `sorted[len/2]` is one of the input values |
| Median.FindMedian | cmd/difference_of_gaussians.go:61-66 | the slice is sorted in place into a permutation of itself, and the median read is its middle element |
| Median.InsertAt | cmd/difference_of_gaussians.go:62 | one insertion step extends the sorted prefix and keeps the multiset |
| Median.CountPermutation | cmd/difference_of_gaussians.go:62 | a permutation has the same number of entries in any value range |
| Median.MedianRank | cmd/difference_of_gaussians.go:61-66 | more than half of the entries are at most the median, and at least half are at least it |
| Median.SortedRank | cmd/difference_of_gaussians.go:62-65 | in a sorted sequence, entry `k` has `k+1` entries at most it and `len-k` at least it |
| Median.MedianOfConstant | cmd/difference_of_gaussians.go:61-66 | one repeated value is its own median |
| ImageUtils.DownscaleSize | cmd/utils/utils_image.go:15-25 | `(width/scale, height/scale)`: the largest size whose multiple by `scale` fits |
| ImageUtils.RoundDown | cmd/utils/utils_image.go:33-34 | `n/s*s` is the largest multiple of `s` not above `n` |
| ImageUtils.OffsetsSplitDiff | cmd/utils/utils_image.go:44-48 | the start and end offsets add up to the margin and differ by at most one |
| ImageUtils.WindowInsideSource | cmd/utils/utils_image.go:50-54 | every read of the copy loop is inside the source |
| ImageUtils.CropSpec | cmd/utils/utils_image.go:33-54 | the canvas has the rounded sizes; a window pixel is stored through `RGBA.Set`, so it keeps the high byte of each channel |
| ImageUtils.BoundImageToScaleMultiple | cmd/utils/utils_image.go:27-56 | an exact image is returned as it is; otherwise the result is `CropSpec`, with sides that are multiples of the factor and less than one factor below the source's, holding only byte-valued colours: the narrowed source pixel inside the window, zero outside it |
| ImageUtils.CropToMultiple | cmd/utils/utils_image.go:38-54 | the copy into the rounded canvas equals `CropSpec` |
| ImageUtils.CropSpecPixels | cmd/utils/utils_image.go:50-54 | a pixel is stored unshifted and narrowed to bytes inside the window, and is zero outside it |
| ImageUtils.CopyWindow | cmd/utils/utils_image.go:36-54 | a fresh canvas receives the window's pixels narrowed to bytes and is zero elsewhere |
| ImageUtils.CopyRow | cmd/utils/utils_image.go:51-53 | the `x` loop stores row `y`, narrowed to bytes, over `[x0, x1)` and changes nothing else |
| ImageUtils.InsideWhenExact | cmd/utils/utils_image.go:29-31 | with no margin the window is the whole image |
| ImageUtils.CentredCropSpec | cmd/utils/utils_image.go:44-54 | the intended centred crop: output pixel `(x, y)` is source pixel `(x+startOffset_W, y+startOffset_H)` narrowed to bytes |
| ImageUtils.NarrowIsIdempotent | cmd/utils/utils_image.go:52 | storing into an `image.RGBA` keeps each channel's high byte, so storing twice is storing once |
| ImageUtils.CropStoresBytes | cmd/utils/utils_image.go:36-54 | every pixel of the cropped canvas is byte-valued, whatever the source's colour model |
| ImageUtils.CropNarrowsSemiTransparent | cmd/utils/utils_image.go:50-53 | on a 5x4 image with factor 4, the source's (12900, 0, 0, 32896) at (0, 0) is stored as (12850, 0, 0, 32896) |
| ImageUtils.CropDropsMargins | cmd/utils/utils_image.go:44-54 | on a 10x8 opaque image with factor 4 the crop as written leaves pixel (0,0) transparent, while the centred crop is opaque everywhere |
| Asciify.TraceAt | cmd/asciify.go:120-136 | cell `(x, y)` is draw number `y*width+x`: one draw per cell, in row-major order |
| Asciify.DrawCells | cmd/asciify.go:120-195 | the nested `y`/`x` loops produce exactly that trace |
| Asciify.CellGlyph | cmd/asciify.go:174-178 | an edge glyph wins; a blank edge gives the luminance glyph |
| Asciify.PaletteIndex | cmd/asciify.go:181-185 | the index is at most 7, and exactly 7 at full luminance |
| Asciify.PaletteIndexMonotone | cmd/asciify.go:181-185 | a brighter pixel never gets a darker shade |
| Asciify.Palette | cmd/asciify.go:146 | eight shades from black to the base colour's bytes |
| Asciify.EightShades | cmd/asciify.go:146 | the call builds exactly that palette |
| Asciify.CellColor | cmd/asciify.go:181-190 | monochrome takes a palette entry; colour mode takes the pixel's bytes |
| Asciify.EdgeMap | cmd/asciify.go:149-150 | the edge map has `width/scale` by `height/scale` glyphs |
| Asciify.AsciifyWithEdges | cmd/asciify.go:140-195 | the background is the given colour in monochrome and black otherwise; the draws are one cell per downscaled pixel with the edge or luminance glyph |
| Asciify.PostEffects | cmd/asciify.go:197-202 | bloom (6, 225, 6), then a burn of 1.2, each only when its flag is set |
| Asciify.ImageCell | cmd/asciify.go:120-136 | the luminance glyph, drawn in black or white in monochrome (by `inverted`) and in the pixel's bytes otherwise |
| Asciify.AsciifyImage | cmd/asciify.go:99-138 | the background is white only for inverted monochrome, and there is one draw per downscaled pixel in row-major order |
| LegacySobel.LegacyAngleMapSpec | sobel_filter.go:100-147 | the root map: interior entries are thresholded and quantised; the first row and column end NaN, except the corner (0, 0), which keeps 0.0; the last row and column hold Sobel entries, since the inclusive loops overwrite the NaN written there |
| LegacySobel.Visit | sobel_filter.go:107-147 | one iteration writes the entry at `(x, y)` and the border entries next to it |
| LegacySobel.MarkBorder | sobel_filter.go:133-147 | the four NaN writes at `x == 1`, `y == 1`, `x == width-2` and `y == height-2` |
| LegacySobel.VisitRow | sobel_filter.go:106-151 | the `x` loop keeps the map equal to the partial map through its row |
| LegacySobel.VisitRows | sobel_filter.go:105-152 | the `y` loop over a square map ends with every entry final |
| LegacySobel.LegacyGetSobelFilter | sobel_filter.go:78-155 | the returned angle map equals `LegacyAngleMapSpec` |
| LegacySobel.LegacyEntryDefinedIff | sobel_filter.go:119-131 | an entry off the first row and column is defined exactly when the squared gradient is at least 2500 and the loops do not overwrite it |
| LegacySobel.LegacyAngleMapIsQuantised | sobel_filter.go:100-147 | the map holds only line classes, NaN and the 0.0 corner |
| LegacySobel.RowSamples | sobel_filter.go:52-55 | the `dx` loop reads `b` samples from a row |
| LegacySobel.CountKeepsTally | sobel_filter.go:54 | `angleCounts[angle]++` keeps the tally: every value's count is its number of occurrences |
| LegacySobel.CountRow | sobel_filter.go:52-55 | the inner counting loop keeps the tally |
| LegacySobel.CountBlock | sobel_filter.go:50-56 | `angleCounts` tallies the block's samples, each NaN apart |
| LegacySobel.DominantKey | sobel_filter.go:58-65 | whatever the map order, the key returned has the maximal count, or the zero key when the map is empty |
| LegacySobel.Decide | sobel_filter.go:67-71 | a NaN key never passes the cutoff; a painted block's angle occurs more than `2b` times and at least as often as any other |
| LegacySobel.DecideOutcome | sobel_filter.go:58-71 | the scan's verdict on a block is one the specification allows |
| LegacySobel.ShadeBlock | sobel_filter.go:50-71 | one block is counted, scanned and painted unless the cutoff or NaN skips it |
| LegacySobel.ShadeRow | sobel_filter.go:48-72 | the `x` loop fills one block row of the canvas |
| LegacySobel.ShadeRows | sobel_filter.go:47-73 | the `y` loop fills every block row |
| LegacySobel.ComputeShaderMap | sobel_filter.go:42-76 | a `width/b` by `height/b` canvas whose every block is zero or the edge colour of an angle with maximal count |
| LegacySobel.PaintedIff | sobel_filter.go:58-71 | whatever the map order, a block is painted exactly when some angle occurs more than `2b` times in it |
| LegacyPostProcessing.AverageBrightness | utils_postprocessing.go:33 | the `uint32` division gives 0 or 1, and 1 exactly for white |
| LegacyPostProcessing.HighlightPixel | utils_postprocessing.go:32-38 | the pixel's bytes or zero: a threshold of 1 or more gives zero, below 0 always the bytes, and in between only white passes |
| LegacyPostProcessing.HighlightSpec | utils_postprocessing.go:25-43 | the highlight image has the source's bounds |
| LegacyPostProcessing.ExtractHighlights | utils_postprocessing.go:25-43 | equals `HighlightSpec`; every pixel is its bytes or zero, and zero from a threshold of 1 on |
| LegacyPostProcessing.BloomImage | utils_postprocessing.go:74-79 | highlights, gray blur and merge; from a threshold of 1 on the image comes back as its own bytes |
| LegacyDifferenceOfGaussians.LegacyDogSpec | difference_of_gaussians.go:56-80 | the binarised difference of the two gray blurs has the source's bounds and is binary |
| LegacyDifferenceOfGaussians.LegacyDifferenceOfGaussians | difference_of_gaussians.go:56-80 | the edges are the median filter of that image, and are binary |
| LegacyAsciify.EdgeGlyph | asciify.go:172-182 | the glyph is decoded from the edge colour's channels, and all-zero channels keep the luminance glyph |
| LegacyAsciify.DecodeEdgeDirection | asciify.go:172-182 | decoding undoes `getEdgeDirection`: 45 gives `/`, 90 `|`, 0 `-`, 135 `\`; black and zero keep the luminance glyph |
| LegacyAsciify.LegacyAsciifyWithEdges | asciify.go:139-199 | the edge map is `width/8` by `height/8` computed blocks, and the inclusive loops make `(d_width+1)*(d_height+1)` draws in row-major order |
| LegacyAsciify.DrawInclusive | asciify.go:165-199 | the `<=` loops draw one cell past each edge of the downscaled image |
| LegacyAsciify.LegacyEdgeMap | asciify.go:146-147 | `getSobelFilter`, then `computeShaderMap` with blocks of 8 |
| LegacyAsciify.OverrunCell | asciify.go:165-194 | past the edge the luminance glyph is `' '`, and in colour mode the cell is drawn in the zero colour |
| LegacyAsciify.LegacyPostEffects | asciify.go:201-206 | with threshold 200 bloom only rounds the canvas to its bytes, and a burn of 1.2 follows when set |

## Left out

- Files, fonts, PNG/JPEG decoding, image saving and `drawCharacter`'s glyph rasterisation: each pipeline returns its background and its draw trace instead.
- `resize.Resize` (Lanczos) in `DownscaleImage`: the downscaled image is a parameter, and only its size `DownscaleSize` is modelled.
- Goroutines and `sync.WaitGroup`: the workers run one after another, which gives the same map because their row ranges are disjoint. `runtime.NumCPU` becomes the parameter `numWorkers`.
- `getAngleHeatmap` and the gray magnitude image `getSobelFilter` returns: the caller discards the gray image and nothing calls the heat map.
- `GenerateSpicedBrightnessPalette`, `SRGBToLin` and `GetTrueLuminance`: not called by either pipeline.
- `ApplyBoxBlur`, `BoxBlurVertical` and `GaussianBlurApprox`'s blur loop: only the horizontal pass and the radii are modelled.
- Floating point is exact real arithmetic. `math.Sqrt`, `math.Atan2`, `math.Exp` and `math.Pow` are parameters. Rounding error is not modelled.
- FastGaussianBlur: where the vertical guard rejects every tap, the source computes `uint8(0/0)`, which is implementation-defined in Go; the model writes 0.
- ColorUtils.ParseHexColorFast: requires a non-empty string, since the source indexes `s[0]` and would panic on an empty one.
- ColorUtils.LuminanceToBrightness: the branch above the knee is stated only through BrightnessBranchesMeet, with an exact cube root.
- PostProcessing.HighlightSpec: requires a threshold other than 1, where `SoftThreshold` divides 0 by 0 on a white pixel; ExtractHighlights, BloomSpec and BloomImage share this requirement.
- PostProcessing.SoftThreshold: requires `val < thresh` or `thresh != 255`, which excludes the same 0/0.
- PostProcessing.GenerateBrightnessPalette: requires `shades` to be 0 or at least 2, since one shade divides 0 by 0.
- PostProcessing.ColorBurn: requires a non-negative factor, because `uint8` of a negative float is implementation-defined in Go.
- Kernels.GaussianKernel: requires `sigma > 0` (and `sigma != 0` for the raw weights), since a zero sigma divides by zero. The blurs and the difference of Gaussians share this requirement.
- BoxBlur.BoxBlurHorizontal: requires `w >= 2*radius+1`, so that the three loops cover the row without overlapping.
- LegacyAsciify.OverrunCell: assumes the downscaled image reads the zero colour outside its bounds, as `image.RGBA`, `image.NRGBA` and `image.RGBA64` do. A decoded `image.YCbCr` (every JPEG, and nfnt/resize keeps that type) reads `color.YCbCr{}`, an opaque green with zero red and blue; an `image.Gray` reads opaque black; an `image.Paletted` reads its first palette entry. For such a source the fallback glyph and colour of the overrun column and row differ.
- GaussianBlur.PerfectGaussianBlur: its top and left border taps read the zero colour outside the source, on the same assumption as `OverrunCell`. The legacy difference of Gaussians blurs the source image with it, so its border pixels differ for a `YCbCr`, `Gray` or `Paletted` source. The legacy bloom blurs an `image.RGBA` highlight pass, where the zero read is exact.
- LegacySobel.LegacyAngleMapSpec: the inclusive loops compute the last column and last row, whose taps read one pixel past the source; the model reads the zero colour there, as `image.RGBA`, `image.NRGBA` and `image.RGBA64` do. For a `YCbCr`, `Gray` or `Paletted` source the entries of the last row and column differ. The same holds for `LegacySobel.LegacyGetSobelFilter`, `LegacySobel.LegacyEntryDefinedIff` and `LegacyAsciify.LegacyEdgeMap`, which rest on this map. For example, a black JPEG gives a defined angle at the middle of its last column, where the model gives NaN.
- LegacyAsciifyWithEdges: its edge map is `LegacyEdgeMap`, so its edge glyphs near the last row and column carry the same zero-read assumption. Its overrun column and row carry the assumption of `OverrunCell`. Both hold exactly for `image.RGBA`, `image.NRGBA` and `image.RGBA64` sources.
- Sobel.QuantizeAngle: at exactly 7/8 the first case wins and the result is 0, and the model follows this.
- Images are assumed to have `Bounds().Min == (0, 0)`, which holds for every image the pipelines create or decode.
- ShaderMap.OptimizedShaderMap: requires the width and height to be multiples of the block size, since the source indexes `shaderMap[y/b][x/b]` and panics on a partial block. Asciify.AsciifyWithEdges requires this of the source image.
- LegacySobel.LegacyGetSobelFilter: requires the loops to stay in range (a square image, or one too small for the loops to run), since the root loops bound `y` by the width and `x` by the height.
- LegacySobel.ComputeShaderMap: requires every block the loops visit to lie inside the angle map, since the root loops read unchecked indices.
- LegacySobel.DominantKey: Go's map iteration order is a free choice of the method. The block's specification `BlockOutcome` allows every key of maximal count.
- ShaderMap.UniformShaderMap: requires `b >= 2` and sides of at least `2b`. Smaller cases make the border blocks overlap and are not proved.
- The command-line parsing in `main.go`, and the root `asciiToImage` and `loadFont`.
- The `crt` flag: the source does nothing with it.
- The root package's `getLuminance`, `getLuminanceCharacter` and `downscaleImage` are not part of this model. Their live counterparts in `ColorUtils` and `ImageUtils` stand in for them.

## Findings

| source | as written | input that shows it | evidently intended | confidence | as-written member | corrected member |
|---|---|---|---|---|---|---|
| cmd/utils/utils_image.go:44-54 | the offsets `startOffset_W`/`startOffset_H` are computed but the copy writes source pixel `(x, y)` to `(x, y)`, so the canvas keeps a transparent margin of columns `[0, startOffset_W)` and rows `[0, startOffset_H)`, and source columns `[rw-endOffset_W, w)` and rows `[rh-endOffset_H, h)` are never copied (`rw`, `rh` the rounded sizes) | a 10x8 opaque image with scaling factor 4: the result is 8x8 and its pixel (0,0) is transparent | a centred crop: output `(x, y)` is source `(x+startOffset_W, y+startOffset_H)`, fully opaque | not executed | ImageUtils.CropDropsMargins | ImageUtils.CentredCropSpec |
| cmd/utils/gaussian_blur.go:210-240 | the flat offsets `li`, `ri` and `ti` start at `y*w`, but are read as x coordinates of row 0 (`GrayAt(li, 0)`) and written as x coordinates of row `y` (`SetGray(ti, y, ..)`); so only row 0 is blurred, and every later row reads zeros and writes past the right edge | a 3x2 gray image of 100s, radius 1, fresh `dst`: row 1 stays 0 | every row filtered on its own samples, so a constant row stays constant | not executed | BoxBlur.LaterRowsNotBlurred | BoxBlur.IntendedKeepsConstantRows |
| cmd/utils/gaussian_blur.go:102 | the vertical pass skips a tap only when `y+dy >= width`, so on an image wider than it is high, taps below the last row pass the guard, read the zero colour and add their weight | a 3x1 opaque white image with kernel (1/4, 1/2, 1/4): the centre becomes 170 instead of 255 | the guard tests `y+dy >= height`, so a uniform image stays uniform on the written columns | not executed | GaussianBlur.VerticalGuardUsesWidth | GaussianBlur.IntendedFastKeepsUniform |

The pipelines (`FastGaussianBlur`, `DifferenceOfGaussians`, `BloomImage`, `BoundImageToScaleMultiple`)
are modelled as written, since that is what the program computes. The intended definitions
stand beside them with their properties proved.
