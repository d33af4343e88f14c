# Grey-level convolution engine

This project models the convolution engine of the hand-written digit
recogniser: class `Convolution` and its companion object. The model covers
the following layers:

- the point convolution: `singlePixelConvolution`, and the integer variant
  `applyConvolution`, which rounds each term before adding it;
- the valid grid convolution `convolution2D`;
- the padded grid convolution `convolution2DPadded`;
- row-major flattening: `convolutionDouble` and `convolutionDoublePadded`;
- iterated convolution: `convolutionType1` (valid) and `convolutionType2`
  (padded);
- conversion to pixels: `doublesToValidPixels` and the `convolution_image`
  pipeline. That pipeline takes the red channel, convolves in padded mode,
  scales and offsets, rounds, clamps and repacks the pixel.

Each Kotlin function is an imperative Dafny `method` over arrays.
- A Kotlin `Array<DoubleArray>` is an `array2<real>` indexed `[x, y]`: the
  outer index runs over the width, the inner one over the height.
- `DoubleArray` and `IntArray` are `array<real>` and `array<int>`.

Each method is proved against a ghost function on grid values (`seq<seq<real>>`):
- `WindowSum` is the point convolution, summed in loop order.
- `ValidConv` and `PaddedConv` are the two grid convolutions.
- `Flatten` is the row-major flattening.
- `IterValid` and `IterPadded` are the iterations.
- `FilterImage` is the whole `convolution_image` pipeline.

Lemmas then prove what these functions promise: window placement, zero
borders, the flatten index bijection, dimensions across iterations, clamping
bounds, and worked examples.

Files:
- `grids.dfy`, module `Grids`: grids, array snapshots and the row-major index map.
- `pixels.dfy`, module `Pixels`: `Math.round`, the clamps and `java.awt.Color` packing.
- `convolution_spec.dfy`, module `ConvolutionSpec`: the specification functions and their lemmas.
- `convolution.dfy`, module `Convolution`: the methods.

The ghost function `Grids.At` reads a sample and gives 0 outside the grid. This keeps the
specification functions free of shape preconditions. Every method reads only
samples that exist, because its `requires` say so.

## Model

| member | source | states |
|---|---|---|
| Convolution.SinglePixelConvolution | testing/hand_DigitRecognizer/src/main/java/ramo/klevis/cnn/Convolution.kt:106-112 | The result is the weighted sum of input[x+i][y+j]·k[i][j] over i < kernelWidth, j < kernelHeight, added up in the loops' order; every read is in bounds when the window fits the image |
| Convolution.ApplyConvolution | testing/hand_DigitRecognizer/src/main/java/ramo/klevis/cnn/Convolution.kt:122-128 | The result is the sum of the terms Round(input[x+i][y+j]·k[i][j]), each rounded on its own before it is added |
| ConvolutionSpec.WindowSum | testing/hand_DigitRecognizer/src/main/java/ramo/klevis/cnn/Convolution.kt:106-112 | The exact point convolution at anchor (x, y): the sum of g[x+i][y+j]·k[i][j] over i < kernelWidth, j < kernelHeight, added column by column as the loops do. It is a definition without a contract of its own; SinglePixelConvolution, WindowLocality and UniformWindow state its properties |
| ConvolutionSpec.RoundedWindowSum | testing/hand_DigitRecognizer/src/main/java/ramo/klevis/cnn/Convolution.kt:122-128 | The integer point convolution: the same terms, each rounded with Math.round before it is added. It is a definition without a contract of its own; ApplyConvolution, RoundedWindowError and RoundingPerTermDiffers state its properties |
| ConvolutionSpec.RoundedColumnError | testing/hand_DigitRecognizer/src/main/java/ramo/klevis/cnn/Convolution.kt:124-126 | One kernel column's sum of rounded terms is within n/2 of its exact sum |
| ConvolutionSpec.RoundedWindowError | testing/hand_DigitRecognizer/src/main/java/ramo/klevis/cnn/Convolution.kt:122-128 | The integer point convolution is within kernelWidth·kernelHeight/2 of the exact window sum |
| ConvolutionSpec.RoundingPerTermDiffers | testing/hand_DigitRecognizer/src/main/java/ramo/klevis/cnn/Convolution.kt:125 | A 1×2 window of ones under the kernel [[0.5, 0.5]] gives 2 when each term is rounded, but its exact sum 1.0 rounds to 1: rounding each term is not rounding the total |
| ConvolutionSpec.ColumnLocality | testing/hand_DigitRecognizer/src/main/java/ramo/klevis/cnn/Convolution.kt:108-110 | A column sum reads only the samples of its own column of the window |
| ConvolutionSpec.WindowLocality | testing/hand_DigitRecognizer/src/main/java/ramo/klevis/cnn/Convolution.kt:106-112 | The point convolution reads only the kernel-sized window at (x, y): two images that agree there give the same sum |
| ConvolutionSpec.UniformColumn | testing/hand_DigitRecognizer/src/main/java/ramo/klevis/cnn/Convolution.kt:108-110 | Over a constant image c, a column sum is c times the kernel column's weight |
| ConvolutionSpec.UniformWindow | testing/hand_DigitRecognizer/src/main/java/ramo/klevis/cnn/Convolution.kt:106-112 | Over a constant image c, the point convolution is c times the total kernel weight |
| Convolution.Convolution2D | testing/hand_DigitRecognizer/src/main/java/ramo/klevis/cnn/Convolution.kt:150-165 | A fresh (width−kernelWidth+1)×(height−kernelHeight+1) array whose cell (i, j) is the point convolution anchored at (i, j) |
| ConvolutionSpec.ValidConv | testing/hand_DigitRecognizer/src/main/java/ramo/klevis/cnn/Convolution.kt:150-165 | The valid convolution is a (width−kernelWidth+1)×(height−kernelHeight+1) grid; cell (i, j) is the point convolution anchored at (i, j) |
| Convolution.FillValid | testing/hand_DigitRecognizer/src/main/java/ramo/klevis/cnn/Convolution.kt:158-164 | After the fill loop, the zeroed output holds the valid convolution of the input |
| ConvolutionSpec.ValidConvLocality | testing/hand_DigitRecognizer/src/main/java/ramo/klevis/cnn/Convolution.kt:150-165 | The valid convolution reads only the first width×height samples of its input |
| ConvolutionSpec.OneByOneKernel | testing/hand_DigitRecognizer/src/main/java/ramo/klevis/cnn/Convolution.kt:150-165 | With a 1×1 kernel [[c]] the valid convolution multiplies every sample by c; with [[1]] it gives the image back |
| ConvolutionSpec.UniformValid | testing/hand_DigitRecognizer/src/main/java/ramo/klevis/cnn/Convolution.kt:150-165 | A uniform image of grey c gives c times the total kernel weight in every valid cell |
| ConvolutionSpec.DoublingExample | testing/hand_DigitRecognizer/src/main/java/ramo/klevis/cnn/Convolution.kt:150-165 | The 3×3 image 1..9 under the kernel [[2]] becomes 2..18 |
| ConvolutionSpec.OnesExample | testing/hand_DigitRecognizer/src/main/java/ramo/klevis/cnn/Convolution.kt:150-165 | A 4×4 image of ones under a 2×2 kernel of ones gives a 3×3 grid of fours |
| Convolution.Convolution2DPadded | testing/hand_DigitRecognizer/src/main/java/ramo/klevis/cnn/Convolution.kt:188-207 | A fresh width×height array. Cell (i+kernelWidth/2, j+kernelHeight/2) is in bounds and holds valid cell (i, j). Every cell outside that window is exactly 0 |
| ConvolutionSpec.PaddedConv | testing/hand_DigitRecognizer/src/main/java/ramo/klevis/cnn/Convolution.kt:188-207 | The padded convolution is a width×height grid; it holds the valid convolution shifted by (kernelWidth/2, kernelHeight/2) and 0.0 in every other cell |
| Convolution.Zeros | testing/hand_DigitRecognizer/src/main/java/ramo/klevis/cnn/Convolution.kt:195-200 | A fresh width×height array with every cell 0 |
| Convolution.CopyAt | testing/hand_DigitRecognizer/src/main/java/ramo/klevis/cnn/Convolution.kt:201-206 | Every sample (i, j) of the small array lands at (i+left, j+top); every other cell keeps its 0 |
| Convolution.CopiedIsPadded | testing/hand_DigitRecognizer/src/main/java/ramo/klevis/cnn/Convolution.kt:195-206 | The copied array is the padded convolution: the valid result inside the window and 0 around it |
| ConvolutionSpec.PaddedWindow | testing/hand_DigitRecognizer/src/main/java/ramo/klevis/cnn/Convolution.kt:204 | Every valid anchor (i, j) is copied to an in-bounds cell (i+kw/2, j+kh/2), which holds the point convolution at (i, j) |
| ConvolutionSpec.PaddedBorder | testing/hand_DigitRecognizer/src/main/java/ramo/klevis/cnn/Convolution.kt:196-200 | Every cell of the padded result outside the copied window is 0 |
| ConvolutionSpec.PaddedUniform | testing/hand_DigitRecognizer/src/main/java/ramo/klevis/cnn/Convolution.kt:201-206 | For a uniform image of grey c, every copied cell of the padded result is c times the kernel weight |
| ConvolutionSpec.UniformPadded | testing/hand_DigitRecognizer/src/main/java/ramo/klevis/cnn/Convolution.kt:188-207 | For a uniform image of grey c, the padded result is c times the kernel weight inside the window and 0 outside it |
| Grids.Flatten | testing/hand_DigitRecognizer/src/main/java/ramo/klevis/cnn/Convolution.kt:232-237 | The row-major flattening of a w×h grid has exactly w·h elements |
| Convolution.FlattenRowMajor | testing/hand_DigitRecognizer/src/main/java/ramo/klevis/cnn/Convolution.kt:263-269 | A fresh array of length w·h holding the grid's rows one after another |
| Grids.FlattenAt | testing/hand_DigitRecognizer/src/main/java/ramo/klevis/cnn/Convolution.kt:266 | Sample (i, j) of the grid is element j·w+i of its flattening, and that index is in range |
| Grids.FlatIndex | testing/hand_DigitRecognizer/src/main/java/ramo/klevis/cnn/Convolution.kt:235 | The index j·w+i of cell (i, j) lies in [0, w·h) and gives back (i, j) by mod and div, so no two cells share an index |
| Grids.FlatIndexSplit | testing/hand_DigitRecognizer/src/main/java/ramo/klevis/cnn/Convolution.kt:264-266 | Every index in [0, w·h) is the index of the cell (k mod w, k div w), so the index map is onto |
| Grids.UnflattenFlatten | testing/hand_DigitRecognizer/src/main/java/ramo/klevis/cnn/Convolution.kt:264-269 | Unflattening a flattened rectangular grid gives the grid back |
| Grids.FlattenUnflatten | testing/hand_DigitRecognizer/src/main/java/ramo/klevis/cnn/Convolution.kt:232-237 | Flattening an unflattened sequence gives back its first w·h elements |
| Convolution.ConvolutionDouble | testing/hand_DigitRecognizer/src/main/java/ramo/klevis/cnn/Convolution.kt:228-238 | A fresh array of length (width−kernelWidth+1)·(height−kernelHeight+1) that is the row-major flattening of the valid convolution |
| Convolution.ConvolutionDoublePadded | testing/hand_DigitRecognizer/src/main/java/ramo/klevis/cnn/Convolution.kt:260-270 | A fresh array of length width·height that is the row-major flattening of the padded convolution |
| Convolution.Clone | testing/hand_DigitRecognizer/src/main/java/ramo/klevis/cnn/Convolution.kt:38-39 | A fresh array with the dimensions and samples of the original |
| ConvolutionSpec.IterValid | testing/hand_DigitRecognizer/src/main/java/ramo/klevis/cnn/Convolution.kt:40-48 | After n > 0 valid convolutions the grid is (width−n·(kernelWidth−1))×(height−n·(kernelHeight−1)) |
| ConvolutionSpec.ShrinkFits | testing/hand_DigitRecognizer/src/main/java/ramo/klevis/cnn/Convolution.kt:41-46 | When n steps leave a positive size, the first step has room for the kernel and the other n−1 steps leave the same size |
| ConvolutionSpec.IterValidLast | testing/hand_DigitRecognizer/src/main/java/ramo/klevis/cnn/Convolution.kt:40-48 | Iteration n is the valid convolution of the result of iteration n−1, at the size that iteration leaves |
| Convolution.ConvolutionType1 | testing/hand_DigitRecognizer/src/main/java/ramo/klevis/cnn/Convolution.kt:36-49 | A count ≤ 0 returns a copy of the input. Otherwise the result is width−n·(kernelWidth−1) by height−n·(kernelHeight−1). Either way it equals n chained valid convolutions |
| ConvolutionSpec.IterPadded | testing/hand_DigitRecognizer/src/main/java/ramo/klevis/cnn/Convolution.kt:74-81 | After any n > 0 padded convolutions the grid is still width×height |
| ConvolutionSpec.IterPaddedLast | testing/hand_DigitRecognizer/src/main/java/ramo/klevis/cnn/Convolution.kt:74-81 | Iteration n is the padded convolution of the result of iteration n−1 |
| Convolution.ConvolutionType2 | testing/hand_DigitRecognizer/src/main/java/ramo/klevis/cnn/Convolution.kt:72-82 | A count ≤ 0 returns a copy of the input. Otherwise the result is width×height. Either way it equals n chained padded convolutions |
| Pixels.Round | testing/hand_DigitRecognizer/src/main/java/ramo/klevis/cnn/Convolution.kt:288 | Math.round of an exact value: the result is within one half of the value, halves going up (x − 1/2 < Round(x) ≤ x + 1/2) |
| Pixels.RoundOfInteger | testing/hand_DigitRecognizer/src/main/java/ramo/klevis/cnn/Convolution.kt:288 | Math.round leaves integers unchanged |
| Pixels.GreyLevel | testing/hand_DigitRecognizer/src/main/java/ramo/klevis/cnn/Convolution.kt:283-289 | The grey level is in [0, 255], and for a value inside that range it is within one half of the value |
| Pixels.Clamp | testing/hand_DigitRecognizer/src/main/java/ramo/klevis/cnn/Convolution.kt:326-327 | The clamped level is in [0, 255]: unchanged inside, 255 above, 0 below |
| Pixels.GreyLevelIsClampedRound | testing/hand_DigitRecognizer/src/main/java/ramo/klevis/cnn/Convolution.kt:325-327 | Clamping then rounding (doublesToValidPixels) gives the same level as rounding then clamping (convolution_image) |
| Pixels.Pack | testing/hand_DigitRecognizer/src/main/java/ramo/klevis/cnn/Convolution.kt:290 | A packed grey pixel is a 32-bit signed int |
| Pixels.PackChannels | testing/hand_DigitRecognizer/src/main/java/ramo/klevis/cnn/Convolution.kt:290 | A packed grey pixel is opaque (alpha 255), and its red, green and blue channels each give back the grey level |
| Pixels.Red | testing/hand_DigitRecognizer/src/main/java/ramo/klevis/cnn/Convolution.kt:318 | `Color(p).red`: bits 16–23 of the packed pixel. It is a definition without a contract of its own; PackChannels and GreyPixelRoundTrip state that it reads back the level Pack wrote |
| Pixels.GreyPixelRoundTrip | testing/hand_DigitRecognizer/src/main/java/ramo/klevis/cnn/Convolution.kt:283-290 | An integer grey in [0, 255] survives packing and red extraction; values above 255 come back as 255 and values below 0 as 0 |
| Convolution.DoublesToValidPixels | testing/hand_DigitRecognizer/src/main/java/ramo/klevis/cnn/Convolution.kt:279-293 | A fresh array of the input's length; pixel i is the opaque grey pixel of the clamped, rounded level of value i |
| Convolution.RedChannelImage | testing/hand_DigitRecognizer/src/main/java/ramo/klevis/cnn/Convolution.kt:316-320 | A fresh width×height image whose sample (i, j) is the red channel of pixel j·width+i |
| ConvolutionSpec.RedChannel | testing/hand_DigitRecognizer/src/main/java/ramo/klevis/cnn/Convolution.kt:316-320 | The red channel of every pixel as a grey level. It is a definition: its ensures only spell out its own body. RedChannelImage and GreyImageUniform state its properties |
| ConvolutionSpec.GreyImage | testing/hand_DigitRecognizer/src/main/java/ramo/klevis/cnn/Convolution.kt:316-320 | The grey image read from a row-major buffer is a width×height grid; sample (i, j) is the red channel of pixel j·width+i |
| ConvolutionSpec.GreyImageUniform | testing/hand_DigitRecognizer/src/main/java/ramo/klevis/cnn/Convolution.kt:316-320 | Pixels whose red channels are all c give the uniform grey image c |
| ConvolutionSpec.Level | testing/hand_DigitRecognizer/src/main/java/ramo/klevis/cnn/Convolution.kt:325-327 | The level of a convolved value is in [0, 255] |
| Convolution.Quantise | testing/hand_DigitRecognizer/src/main/java/ramo/klevis/cnn/Convolution.kt:323-330 | A fresh array of the same length; element n becomes the opaque grey pixel of Round(v·scale+offset), clamped after rounding |
| Convolution.ConvolutionImage | testing/hand_DigitRecognizer/src/main/java/ramo/klevis/cnn/Convolution.kt:314-331 | A fresh array of width·height pixels equal to the pipeline: red channel, padded convolution, row-major flattening, then scale, offset, round, clamp and pack |
| ConvolutionSpec.FilterGrid | testing/hand_DigitRecognizer/src/main/java/ramo/klevis/cnn/Convolution.kt:321-330 | The last two stages on a grey image: exactly width·height packed pixels, those of the padded convolution flattened row-major, each value scaled, offset, rounded, clamped and packed |
| ConvolutionSpec.FilterImage | testing/hand_DigitRecognizer/src/main/java/ramo/klevis/cnn/Convolution.kt:314-331 | The filtered image has exactly width·height pixels: FilterGrid applied to the grey image read from the pixel buffer |
| ConvolutionSpec.FilterImagePixel | testing/hand_DigitRecognizer/src/main/java/ramo/klevis/cnn/Convolution.kt:314-331 | Pixel j·width+i of the filtered image is an opaque grey pixel whose red channel is the level of padded cell (i, j) |
| ConvolutionSpec.FilterUniform | testing/hand_DigitRecognizer/src/main/java/ramo/klevis/cnn/Convolution.kt:321-330 | On any uniform grey image of grey c, each filtered pixel has the level of c·weight inside the window and the level of 0, Clamp(Round(offset)), on the border |
| ConvolutionSpec.FilterUniformNormalised | testing/hand_DigitRecognizer/src/main/java/ramo/klevis/cnn/Convolution.kt:314-331 | Take a kernel of total weight 1, scale 1 and offset 0. A pixel buffer whose red channels are all c then filters to pixels whose red channel stays c inside the window and becomes 0 on the border |

## Left out

- Floating point: `Double` is modelled as `real`. NaN, infinities and accumulated IEEE rounding error are not modelled. `Math.round` is modelled exactly as Floor(x + 1/2).
- Convolution.ApplyConvolution: the `Long → Int` narrowing of `Math.round(...).toInt()` is not modelled, because integers are unbounded. Nor is a 32-bit overflow of the running sum.
- Convolution.Quantise: the `toInt()` narrowing of a huge rounded value, before the clamp, is not modelled, for the same reason.
- `java.awt.Color` is modelled by its packing arithmetic. `Color(g, g, g).rgb` is the two's-complement int of 0xFF000000 + g·0x10101. `Color(p).red` is (p >> 16) & 0xFF, written as floor division.
- Convolution.Convolution2D, Convolution.Convolution2DPadded, Convolution.ConvolutionDouble, Convolution.ConvolutionDoublePadded and Convolution.ConvolutionImage require 1 ≤ kernelWidth ≤ width and 1 ≤ kernelHeight ≤ height, with the image and kernel arrays at least that large. The code itself checks none of this. Outside these bounds it behaves as follows, and none of it is modelled:
  - With a kernel size ≤ 0 the valid-mode functions (convolution2D, convolutionDouble) read nothing: the loops of singlePixelConvolution (lines 107-108) do not run, and the result is all zeros with no error: a (width − kernelWidth + 1)×(height − kernelHeight + 1) grid from convolution2D, a flat array of (width − kernelWidth + 1)·(height − kernelHeight + 1) values from convolutionDouble. The padded variants then write outside `large` at line 204 and fail with an index error.
  - With kernelWidth = width + 1 (or kernelHeight = height + 1) the valid-mode functions return an empty grid (convolution2D) or an empty array (convolutionDouble). The padded ones return zeros, because the copy loop at lines 201-206 runs zero times: convolution2DPadded an all-zero width×height grid, convolutionDoublePadded a flat array of width·height zeros. convolution_image then returns width·height pixels of level Clamp(Round(offset)).
  - With a kernel more than one larger than the image, the allocation of the smaller grid gets a negative size and fails: at line 152, and in the padded and flattening variants already at their unused allocations on lines 192 and 230.
- Convolution.ConvolutionType1 and Convolution.ConvolutionType2 require nothing when iterations ≤ 0, matching the source, which then only clones the input. When iterations > 0, ConvolutionType1 requires 1 ≤ kernelWidth ≤ the kernel's width, width ≤ the image's width and 1 ≤ width − iterations·(kernelWidth − 1), so that every pass's valid result is at least one sample wide; likewise for the height. ConvolutionType2 requires 1 ≤ kernelWidth ≤ width ≤ the image's width and kernelWidth ≤ the kernel's width, likewise for the height. Chains that leave these bounds behave as in the cases above and are not modelled.
- Error handling: the code checks none of its arguments and returns no errors; the model states the conditions as preconditions.
- Jagged arrays: Kotlin's `Array<DoubleArray>` is modelled as a rectangular `array2`, so rows of different lengths are not represented.
- `clone()` is shallow in Kotlin: the clone shares the row arrays of the original, while the model's `Clone` copies the samples into a fresh array. Inside the engine the sharing is invisible, because no function writes to a cloned grid. It is visible to a caller: with iterations ≤ 0, convolutionType1 and convolutionType2 return `input.clone()` (lines 39 and 73), so a caller that writes result[x][y] also changes input[x][y]. The model's `ensures fresh(output)` on ConvolutionType1 and ConvolutionType2 does not capture that aliasing.
- Dead allocations are not reproduced. These arrays are allocated and then immediately overwritten: lines 75, 192, 230, 260 and 315.
- Helper methods: `Zeros` and `CopyAt` (the two loops of `convolution2DPadded`), `FillValid` (the second loop of `convolution2D`), `FlattenRowMajor` (the loop that `convolutionDouble` and `convolutionDoublePadded` share), `RedChannelImage` and `Quantise` (the two loops of `convolution_image`). Each is one loop of the Kotlin function it serves, with its own contract. The loops run in the same order as in the source.
- Convolution.ConvolutionImage: the pixel buffer may be longer than width·height; only its first width·height pixels are read, as in the source.
- The `Thread` superclass, the instance/companion split and the commented-out debug prints are left out. All methods are module-level.
- The rest of the repository is not part of this model: the DL4J network (`LenetMnistExample.kt`), the Swing front end (`Run.kt`) and `AccuracyCalculator.kt`.
