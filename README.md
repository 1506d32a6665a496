# Image containers and integral images of FaceDetect

This project models the image containers of `FaceDetect/common/image.h` in
Dafny and proves their addressing and summing properties.

- `IMAGE` is a gray image. It has one byte per pixel in a row-major buffer,
  and each row is padded to a multiple of 4 bytes.
- `IMAGEC` is a colour image. It stores three channel bytes per pixel, with
  rows padded the same way.
- `I_IMAGE` is the integral image (summed-area table) of a gray image. It is
  a `(W+1)`-by-`(H+1)` table of `unsigned int` cells. Cell `(x, y)` holds
  `II(x, y)`, the sum of the pixels `I(x', y')` with `x' < x` and `y' < y`.
  So its first row and first column are 0.
- `IN_IMAGE` is an `I_IMAGE` with a second, parallel table of
  64-bit `I2TYPE` cells.

The project is split into four modules.

- `Layout` (layout.dfy):
  - the `byte` type;
  - the two `ComputeStride` functions, with C's truncating division written
    out;
  - the row-major index arithmetic shared by every container.
- `Integral` (integral.dfy) is the pure definition of the integral image.
  - `II` is stated as a recursive sum.
  - `Block` is an independent reference definition of the sum over a
    half-open rectangle.
  - `II`'s contract gives the zero border; the lemmas prove the four-corner formula.
  - The lemmas also prove the recurrence a row-major sweep uses.
  - They prove bounds and monotonicity.
  - They prove the modular arithmetic of fixed-width accumulators.
- `Image` (image.dfy) holds the classes `GrayImage` (`IMAGE`) and
  `ColorImage` (`IMAGEC`).
  - Each class holds its buffer as an `array<byte>`.
  - `Pixels()` is the pixel grid the buffer encodes. It is given by the pure
    functions `GrayGrid` and `ColorGrid`.
  - `SetValue` writes the buffer in place. Its contract gives the whole new
    buffer and the whole new pixel grid.
- `IntegralImages` (integral_image.dfy) holds the classes `IntegralImage`
  (`I_IMAGE`) and `NormIntegralImage` (`IN_IMAGE`).
  - `Fill` is a row-major sweep. It is split into `Fill`, `FillRow` and
    `FillCell`, and it fills a table cell by cell.
  - Each border cell is set to 0.
  - Each interior cell is computed as `left + up - upleft + pixel`, modulo the
    accumulator width.
  - The sweep is proved to leave the definition of `II` in every cell.

The model makes these choices:

- **Linear table width.** The `unsigned int` cells of `I_IMAGE` wrap.
  - Every cell is modelled as `II(x, y) mod 2^32`, and wraparound is written
    out explicitly.
  - A rectangle sum is always correct modulo 2^32. It is exact whenever
    `255 * area < 2^32`.
- **Squares table contents.** The header does not show the body of
  `IN_IMAGE::Init`. Its second table is modelled as the same sweep over
  squared pixels, which is what a local variance needs.
  - The sweep is computed modulo 2^64.
  - The model proves that every such sum for a table of at most 2^31 cells
    is below 2^63. So the signed `I2TYPE` cells hold the exact sums.
- **Inheritance.** `IN_IMAGE : I_IMAGE` is modelled by composition: the field
  `linear` holds the integral image the class extends.
- **Bounds checks.** The `ASSERT` bounds checks of every `GetIndex` become
  preconditions.
- **Querying an unbuilt table.** Reading a table before `Init` has filled it
  requires the ghost flag `Built`.
- **Buffer size.** Buffers are bounded by `MaxCells` = 2^31, the number of
  cells a non-negative C `int` index can address. An image's stride is
  below 2^31, so it fits in the `int` field `m_stride`. The `int` field
  `m_memSize` that records a buffer's size is not modelled: the bound
  admits a buffer of exactly 2^31 cells, whose size would not fit in it.
- **Stride.** An image's stride is any value of at least `width` (gray) or
  `3*width` (colour). The default constructors compute it with
  `ComputeStride`; `Wrap` takes the caller's stride and buffer, as the
  `stride` and `pData` arguments do.

## Model

| member | source | states |
|---|---|---|
| Layout.CDiv | FaceDetect/common/image.h:60 | C integer division by a positive divisor rounds toward zero: the floor quotient for a non-negative numerator, and for a negative numerator the ceiling quotient, `a <= q*b < a + b` |
| Layout.GrayStride | FaceDetect/common/image.h:60 | `IMAGE::ComputeStride(w)` is a multiple of 4, and for `w >= 0` it is at least `w` and below `w + 4` |
| Layout.ColorStride | FaceDetect/common/image.h:233 | `IMAGEC::ComputeStride(w)` is a multiple of 4, and for `w >= 0` it is at least `3w` and below `3w + 4` |
| Layout.RowMajor | FaceDetect/common/image.h:52-57 | an in-bounds offset `y*stride + x` lies inside row `y` and below `stride*height`, and division and remainder by the stride recover `y` and `x` |
| Layout.RowMajorInjective | FaceDetect/common/image.h:52-57 | distinct in-bounds pixels have distinct offsets |
| Layout.OffsetDecode | FaceDetect/common/image.h:125-130 | the row and column of offset `y*width + x` in a `width`-wide table are `y` and `x` |
| Layout.OffsetInTable | FaceDetect/common/image.h:110 | every offset below `width*height` is the offset of a cell of the `width`-by-`height` table |
| Layout.ColorSlotBounds | FaceDetect/common/image.h:227-232 | for an in-bounds colour pixel, the index `y*stride + 3x` and the two bytes after it stay inside row `y`, so `index + 2 < (y+1)*stride <= stride*height` |
| Layout.ColorSlot | FaceDetect/common/image.h:227-232 | a colour index decodes back to its pixel: dividing by the stride gives `y`, and the remainder divided by 3 gives `x` |
| Layout.ColorSlotsDisjoint | FaceDetect/common/image.h:227-232 | the 3-byte slots of two distinct colour pixels do not overlap |
| Image.GrayGrid | FaceDetect/common/image.h:52-57 | a gray buffer encodes a grid of `h` rows of `w` pixels |
| Image.GrayGridUpdate | FaceDetect/common/image.h:81 | writing the byte at pixel `(x, y)`'s offset changes that pixel of the grid to the new value and no other pixel |
| Image.ColorGrid | FaceDetect/common/image.h:227-232 | a colour buffer encodes a grid of `h` rows of `w` three-channel pixels |
| Image.ColorGridUpdate | FaceDetect/common/image.h:265-271 | writing the three bytes of pixel `(x, y)` changes that pixel of the grid to the new channels and no other pixel |
| Image.GrayImage.constructor | FaceDetect/common/image.h:73 | a new image has the given dimensions, the stride `ComputeStride(w)` and a fresh buffer holding `stride*height` bytes |
| Image.GrayImage.Wrap | FaceDetect/common/image.h:73 | an image over a caller's buffer keeps the caller's stride and buffer and the given dimensions, for any stride of at least `width` |
| Image.GrayImage.GetIndex | FaceDetect/common/image.h:52-57 | the index of an in-bounds pixel lies in row `y`, below `stride*height`, and inside the buffer; division and remainder by the stride give back `y` and `x` |
| Image.GrayImage.Pixels | FaceDetect/common/image.h:46-50 | the buffer is viewed as `height` rows of `width` pixels |
| Image.GrayImage.GetValue | FaceDetect/common/image.h:80 | the byte read is pixel `(x, y)` of the image |
| Image.GrayImage.SetValue | FaceDetect/common/image.h:81 | the new buffer is the old one with only the byte at `GetIndex(x, y)` replaced; the new image is the old one with only pixel `(x, y)` replaced, so a later `GetValue(x, y)` returns the value written |
| Image.ColorImage.constructor | FaceDetect/common/image.h:240 | a new image has the given dimensions, the stride `ComputeStride(w)` and a fresh buffer holding `stride*height` bytes |
| Image.ColorImage.Wrap | FaceDetect/common/image.h:240 | an image over a caller's buffer keeps the caller's stride and buffer and the given dimensions, for any stride of at least `3*width` |
| Image.ColorImage.GetIndex | FaceDetect/common/image.h:227-232 | the index of an in-bounds pixel and the two bytes after it lie inside row `y` and inside the buffer; division by the stride gives back `y`, and the remainder is `3x` |
| Image.ColorImage.Pixels | FaceDetect/common/image.h:204-208 | the buffer is viewed as `height` rows of `width` three-channel pixels |
| Image.ColorImage.GetValue | FaceDetect/common/image.h:258-264 | the three bytes read are the channels of pixel `(x, y)` |
| Image.ColorImage.SetValue | FaceDetect/common/image.h:265-271 | the new buffer is the old one with only the three bytes at `GetIndex(x, y)` replaced; the new image is the old one with only pixel `(x, y)` replaced, so a later `GetValue(x, y)` returns the channels written |
| Integral.II | FaceDetect/common/image.h:110-113 | the integral image as the sum over the rows above `y` of the first `x` pixels; its first row and first column are 0 |
| Integral.Block | FaceDetect/common/image.h:112 | the reference pixel sum over a half-open rectangle, row by row; an empty rectangle sums to 0 |
| Integral.PrefixExtend | FaceDetect/common/image.h:110-112 | storing cell `n`'s correct residue after a correct row-major prefix of length `n` gives a correct prefix of length `n + 1` |
| Integral.CellAt | FaceDetect/common/image.h:110-112 | offset `y*(w+1) + x` of cell `(x, y)` lies inside the `(w+1)`-by-`(h+1)` table, and the cell there is `II(x, y)` |
| Integral.Weight | FaceDetect/common/image.h:169 | a pixel contributes itself to the linear table and its square to the squares table; both values lie in `[0, 255]` or `[0, 255^2]` |
| Integral.PlaneOf | FaceDetect/common/image.h:112 | the integer plane a table sums has the pixel grid's shape, and each entry is its pixel's contribution |
| Integral.Recurrence | FaceDetect/common/image.h:112 | `II(x+1, y+1) = II(x, y+1) + II(x+1, y) - II(x, y) + I(x, y)` |
| Integral.SpanIsPrefixDifference | FaceDetect/common/image.h:112 | the sum of a row segment is the difference of two row-prefix sums |
| Integral.FourCorners | FaceDetect/common/image.h:112 | the reference sum over `[x0, x1) x [y0, y1)` equals `II(x1,y1) - II(x0,y1) - II(x1,y0) + II(x0,y0)` |
| Integral.IIIsBlock | FaceDetect/common/image.h:112 | `II(x, y)` is the reference sum over `[0, x) x [0, y)` |
| Integral.RowPrefixBounds | FaceDetect/common/image.h:112 | with pixels in `[0, c]`, a row prefix of length `x` lies in `[0, c*x]` |
| Integral.IIBounds | FaceDetect/common/image.h:112 | with pixels in `[0, c]`, `0 <= II(x, y) <= c*x*y` (so `<= 255*x*y` for bytes) |
| Integral.IIWithin | FaceDetect/common/image.h:112 | with pixels in `[0, c]`, every cell of a `w`-by-`h` image's table lies in `[0, c*w*h]` |
| Integral.SpanBounds | FaceDetect/common/image.h:112 | with pixels in `[0, c]`, a row segment sum lies in `[0, c*length]` |
| Integral.BlockBounds | FaceDetect/common/image.h:112 | with pixels in `[0, c]`, a rectangle sum lies in `[0, c*area]` |
| Integral.MonotoneInX | FaceDetect/common/image.h:112 | with non-negative pixels, `II(x, y) <= II(x+1, y)` |
| Integral.MonotoneInY | FaceDetect/common/image.h:112 | with non-negative pixels, `II(x, y) <= II(x, y+1)` |
| Integral.ModShift | FaceDetect/common/image.h:123 | adding a multiple of the cell modulus leaves a residue unchanged |
| Integral.ModCombine3 | FaceDetect/common/image.h:123 | the sweep step's combination of three residues and a pixel agrees, modulo `m`, with the same combination of the true values |
| Integral.ModCombine4 | FaceDetect/common/image.h:123 | the four-corner combination of four residues agrees, modulo `m`, with the same combination of the true values |
| Integral.SweepStep | FaceDetect/common/image.h:123 | the sweep step applied to the stored residues of the left, upper and upper-left cells gives the cell's residue |
| Integral.FourCornersMod | FaceDetect/common/image.h:123 | the four-corner combination of stored residues is the rectangle sum modulo `m` |
| Integral.BlockExact | FaceDetect/common/image.h:123 | a rectangle sum whose bound `c*area` is below the modulus equals its own residue |
| IntegralImages.Fill | FaceDetect/common/image.h:146 | after the sweep, every one of the `(W+1)*(H+1)` cells holds `II` of the image's plane modulo `m`; cells beyond the table are unchanged |
| IntegralImages.FillRow | FaceDetect/common/image.h:146 | sweeping row `y` after correct rows above leaves rows `0..y` correct and changes nothing after row `y` |
| IntegralImages.FillCell | FaceDetect/common/image.h:146 | writing cell `k` after a correct prefix gives a correct prefix one longer and changes no other cell |
| IntegralImages.BorderCell | FaceDetect/common/image.h:113 | a cell of the first row or column lies in the table and is 0 |
| IntegralImages.InteriorCell | FaceDetect/common/image.h:112 | for an interior cell, the stored residues at offsets `k-1`, `k-(w+1)` and `k-(w+1)-1` plus pixel `(x-1, y-1)` give the residue of cell `k` |
| IntegralImages.SquaresFit | FaceDetect/common/image.h:16 | every squared-pixel sum of a table of at most 2^31 cells fits in the signed 64-bit `I2TYPE` |
| IntegralImages.IntegralImage.constructor | FaceDetect/common/image.h:139 | a new table for a `width`-by-`height` image is `(width+1)`-by-`(height+1)`, and `GetWidth`/`GetHeight` report `width` and `height` |
| IntegralImages.IntegralImage.Summed | FaceDetect/common/image.h:112 | the plane the linear table sums has the source image's shape and entries in `[0, 255]` |
| IntegralImages.IntegralImage.GetIndex | FaceDetect/common/image.h:125-130 | the index of an in-bounds cell lies in the table and decodes back to row `y` and column `x` |
| IntegralImages.IntegralImage.GetIWidth | FaceDetect/common/image.h:154 | the table's own width is at least 1, and that many columns of `GetIHeight()` rows fit in the buffer |
| IntegralImages.IntegralImage.GetIHeight | FaceDetect/common/image.h:155 | the table's own height is at least 1, and that many rows of `GetIWidth()` cells fit in the buffer |
| IntegralImages.IntegralImage.GetWidth | FaceDetect/common/image.h:152 | the reported width is the table width minus one, so `GetWidth() == GetIWidth() - 1` |
| IntegralImages.IntegralImage.GetHeight | FaceDetect/common/image.h:153 | the reported height is the table height minus one, so `GetHeight() == GetIHeight() - 1` |
| IntegralImages.IntegralImage.Init | FaceDetect/common/image.h:146 | after `Init`, the table is built from exactly this image with the image's dimensions; the buffer is kept or replaced by a fresh one |
| IntegralImages.IntegralImage.GetValue | FaceDetect/common/image.h:150 | cell `(x, y)` is `II(x, y) mod 2^32`, and exactly `II(x, y)` when `255*W*H < 2^32` |
| IntegralImages.IntegralImage.ZeroRowAndColumn | FaceDetect/common/image.h:113 | in a built table, `GetValue(0, y)` and `GetValue(x, 0)` are 0 |
| IntegralImages.IntegralImage.RectSum | FaceDetect/common/image.h:112 | succeeds exactly for rectangles inside the image; the four-corner result is the pixel sum modulo 2^32, and the exact sum when `255*area < 2^32` |
| IntegralImages.NormIntegralImage.Squares | FaceDetect/common/image.h:169 | the plane the squares table sums has the linear table's shape and entries in `[0, 255^2]` |
| IntegralImages.NormIntegralImage.SquaresMirrorLinear | FaceDetect/common/image.h:166-187 | each entry summed by the squares table is the square of the corresponding entry summed by the linear table |
| IntegralImages.NormIntegralImage.constructor | FaceDetect/common/image.h:177 | both tables of a new normalised image are allocated for a `width`-by-`height` image |
| IntegralImages.NormIntegralImage.Init | FaceDetect/common/image.h:184 | after `Init`, both tables are built from this image with the image's dimensions; each buffer is kept or replaced by a fresh one |
| IntegralImages.NormIntegralImage.FillSquares | FaceDetect/common/image.h:184 | fills the squares table from the image the linear table was built from; the buffer is kept or replaced by a fresh one |
| IntegralImages.NormIntegralImage.StoredSquare | FaceDetect/common/image.h:186 | the stored squares cell `(x, y)` is the exact sum of squared pixels, and it lies in `[0, 2^63 - 1]` |
| IntegralImages.NormIntegralImage.GetValue2 | FaceDetect/common/image.h:186 | cell `(x, y)` of the squares table is exactly `II` of the squared pixels, a value of `I2TYPE` |
| IntegralImages.NormIntegralImage.ZeroRowAndColumn2 | FaceDetect/common/image.h:113 | the first row and the first column of the squares table are 0, as in the linear table |
| IntegralImages.NormIntegralImage.RectSum2 | FaceDetect/common/image.h:186 | succeeds exactly for rectangles inside the image; the four-corner result is the exact sum of squared pixels and lies in `[0, 255^2 * area]` |

## Left out

- File input and output are not modelled. The format loaders and savers (`LoadPGM`, `SavePGM`, `LoadBMP`, `SaveBMP`, `LoadJPG`, `SaveJPG`, `LoadPPM`, `SavePPM`, `Load`, `Save`) need a file system and libjpeg.
- Colour conversion is not modelled: `ConvertYFromC`, `ConvertCFromY`, `ConvertCToC` and the `color_conv` tables. The header only declares them, with no formulas.
- The colour-space field and its accessors are not modelled; they carry no arithmetic.
- `ComputeNorm`, `InitWithSubSample`, `DrawRectAlpha` and `DrawPixel` are not modelled. They use floating point, and their bodies are not shown.
- `Realloc`, `Release` and the destructors are not modelled as raw memory management. The constructors allocate a buffer of the needed size. `Init` reuses the table buffer, or allocates a fresh one when it is too small.
- `CopyToImage`, `HFlipToImage`, `ScaleToImage`, `CropToImage` and `DrawRect` are not modelled; they are only declared.
- The commented-out two-image `Init` of `I_IMAGE` (line 148) is not modelled.
- `GetStride`, `GetDataPtr`, `GetDataPtr2` and `GetDepth` are not modelled. They only expose fields: the `stride` field, the buffer arrays, and the constant 3.
- Image.ColorImage.GetValue: returns the three channels as a `Channels` value instead of writing them into a caller's `BYTE color[3]` array. Aliasing between that array and the image buffer is therefore not modelled.
- Image.ColorImage.SetValue: takes the three channels as a `Channels` value instead of reading them from a caller's `BYTE color[3]` array. The source reads `color[1]` and `color[2]` after writing the first byte, so a `color` array that points into the image buffer can give a different result; that aliasing is not modelled.
- IntegralImages.IntegralImage.Init: the header shows no body. The model chooses one row-major sweep with the four-term recurrence. Only its result, the definition at line 112, is taken from the source.
- IntegralImages.NormIntegralImage.Init: the contents of the squares table are a modelling choice, the sums of squared pixels. The header fixes only the cell type and the indexing.
- IntegralImages.IntegralImage.RectSum: the header has no rectangle-sum function. It is built from the definition at line 112, and it accepts empty rectangles.
- Layout.GrayStride: the stride functions compute with unbounded integers and do not model C `int` overflow of `w + 3` or `w*3 + 3`. The default constructors of `GrayImage` and `ColorImage` instead require `w + 3 < 2^31` and `w*3 + 3 < 2^31`, so the formula never overflows for an image the model builds.
- The constructor bodies are not part of this model; the header shows only their signatures. The model takes `stride = 0, pData = NULL` to mean a computed stride and a fresh buffer, and a caller's stride with a caller's buffer otherwise. A caller's stride with a `NULL` buffer, the colour-space argument of `IMAGEC`, the `bytePerPixel` constructor of `IMAGE` (line 75) and the no-argument constructors are not modelled.
- IntegralImages.IntegralImage.GetValue: the exact result (without the modulo) is stated only when `255*W*H < 2^32`. For larger images the 32-bit cells lose the high bits, as in the source.
