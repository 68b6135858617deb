# ImageEditor, modelled in Dafny

`ImageEditor.java` is a small raster-transform engine. It keeps one process-wide
buffer `image`: a row-major two-dimensional `int` array with one packed RGB pixel
per cell (an unused top byte, then red, green and blue). It offers three
transforms on that buffer:

- `rotate(degree)` turns the picture clockwise in quarter turns, building a fresh
  transposed buffer each time.
- `downSample(heightScale, widthScale)` replaces every block with the
  channel-by-channel truncated mean of its pixels.
- `patch(...)` copies a smaller picture onto the buffer in place. It skips pixels
  equal to a transparency key and returns the number of pixels written.

Four private helpers, `packInt` and the three `unpack{Red,Green,Blue}Byte`, pack and
unpack channels with shifts and byte masks. `downSample` and `patch` instead split a pixel
with Java's truncating `/` and `%` by 65536 and 256.

The project has three modules. Every operation is proved against a function of the
buffer it starts from, and lemmas state what those functions mean.

- `Pixels` (`Pixels.dfy`) covers pixels as Java `int`s:
  - the two ways of taking a pixel apart, and `packInt`;
  - Java's truncating division (`JavaDiv`, `JavaRem`);
  - the round trips between packing and unpacking;
  - the agreement between the division split and the masks on pixels with a clear
    top byte.
- `Grids` (`Grids.dfy`) treats the buffer as a value `seq<seq<Int32>>`. It holds
  the specification functions:
  - `Rotate90` and `RotateBy` for one and `n` quarter turns, with `RotationSteps`
    giving the number of turns `rotate` makes for a degree;
  - `DownSampled`, built from `BlockSum`, `ChannelMean` and `BlockAverage`;
  - `Patched`, with `OpaqueCount` for the number of pixels `patch` writes.

  It also holds the lemmas about them: four turns are the identity, each output
  channel of a down-sample is the block mean, a fully transparent patch changes
  nothing, and so on.
- `Editor` (`ImageEditor.dfy`) has the class `ImageEditor`, whose field `image` is
  an `array2<Int32>`, and the methods `Rotate`, `DownSample` and `Patch`.
  - Each nested Java loop becomes a `for` or `while` loop with invariants.
  - Each loop nest is its own method, so each proof stays small: the back-up copy
    and the remap of `rotate`, the row of blocks, the block average and the row sum
    of `downSample`, and the patch row of `patch`.
  - `Rotate` recurses on `degree - 90` exactly as the source does.
  - `Patch` allows the patch buffer to be the buffer itself, as one whole array.
    Rows shared between two different Java arrays are not modelled (see "Left out").

`Contents()` is the buffer as a value, and `Valid()` requires both dimensions of the buffer to be at least 1. This holds for
every buffer decoded from an image file, every transform keeps it, and it is what
the source's reads of `image[0]` rely on. `Patch` requires only `patchImage` to
have a row, because the source reads `patchImage[0].length`. A patch with zero
columns is handled.

Where the documentation comments and the code disagree, the model follows the code:

- The comment on `rotate` asks for a degree greater than zero, but `rotate(0)` is
  accepted and changes nothing.
- The comments on `downSample` ask for scales smaller than the dimensions, but a
  scale equal to its dimension is accepted: the whole row or column becomes one
  pixel.
- The comments on `patch` ask for a start position smaller than the dimensions,
  and the first check of the code allows a start equal to the height or the width.
  A start equal to the height is then always rejected by the second check, because
  the patch has at least one row. A start equal to the width gets through when the
  patch has zero columns, and then nothing is written and 0 is returned.

## Model

| member | source | states |
|---|---|---|
| Pixels.UnpackRedByte | ImageEditor.java:114-116 | the red channel of any `int` is a byte, 0..255 |
| Pixels.UnpackGreenByte | ImageEditor.java:124-126 | the green channel of any `int` is a byte |
| Pixels.UnpackBlueByte | ImageEditor.java:134-136 | the blue channel of any `int` is a byte |
| Pixels.PackInt | ImageEditor.java:147-151 | three bytes pack into a pixel whose top byte is clear (0 <= rgb < 2^24), so no shift overflows |
| Pixels.UnpackPackInt | ImageEditor.java:114-151 | unpacking each channel of `packInt(r, g, b)` gives back `r`, `g` and `b` |
| Pixels.PackIntUnpack | ImageEditor.java:114-151 | a pixel with a clear top byte is rebuilt exactly by packing its three unpacked channels |
| Pixels.JavaDiv | ImageEditor.java:232-234 | Java's `/` by a positive divisor truncates toward zero: the remainder has the dividend's sign and is smaller than the divisor |
| Pixels.JavaRem | ImageEditor.java:233-235 | Java's `%` by a positive divisor has the dividend's sign and is smaller than the divisor in magnitude |
| Pixels.DivRed | ImageEditor.java:231-232 | the red part of the division split, `rgb / 65536` truncated, lies in -32768..32767 for any `int` |
| Pixels.DivGreen | ImageEditor.java:233-234 | the green part of the division split lies in -255..255 and is not negative for a non-negative pixel |
| Pixels.DivBlue | ImageEditor.java:235-236 | the blue part of the division split lies in -255..255 and is not negative for a non-negative pixel |
| Pixels.DivisionSplitRecombines | ImageEditor.java:231-236 | any `int` equals `red * 65536 + green * 256 + blue` of its three truncated parts |
| Pixels.DivisionSplitMatchesMasks | ImageEditor.java:231-236 | on a pixel with a clear top byte, the `/65536`, `%65536`, `/256`, `%256` split gives the same channels as the masks |
| Pixels.TransparentIffPackedKey | ImageEditor.java:285-293 | `IsTransparent` is the test of lines 292-293 on the division split. For a pixel with a clear top byte and a key of three bytes, the transparency test holds exactly when the pixel equals `packInt` of the key |
| Grids.Rotate90 | ImageEditor.java:190-197 | one quarter turn makes an H x W buffer W x H |
| Grids.Rotate90At | ImageEditor.java:190-197 | after one quarter turn `new[j][H-1-i] == old[i][j]` for all `i < H`, `j < W` |
| Grids.RotateBy | ImageEditor.java:183-200 | `n` quarter turns, one after another, of an image with both dimensions positive is again such an image |
| Grids.RotateByDims | ImageEditor.java:174-201 | an even number of turns keeps the dimensions and an odd number swaps them |
| Grids.HalfTurnAt | ImageEditor.java:174-201 | two turns send `old[i][j]` to `new[H-1-i][W-1-j]` |
| Grids.RotateByAdd | ImageEditor.java:198-200 | `a` turns followed by `b` turns are `a + b` turns |
| Grids.FullTurn | ImageEditor.java:174-201 | four quarter turns restore the original dimensions and pixels |
| Grids.RotateByModFour | ImageEditor.java:174-201 | `n` turns equal `n mod 4` turns |
| Grids.RotationSteps | ImageEditor.java:176-182 | `rotate` makes fewer than four quarter turns for any degree |
| Grids.RotationStepsNone | ImageEditor.java:176-182 | `rotate` makes no turn exactly when the degree is negative, not divisible by 90, or a multiple of 360 |
| Grids.RotationStepsQuarters | ImageEditor.java:176-200 | for a non-negative multiple of 90, the number of turns is `(degree / 90) mod 4` |
| Grids.DegreeQuarter | ImageEditor.java:179 | a non-negative multiple of 90 reduced modulo 360 is 0, 90, 180 or 270, that is `90 * ((degree / 90) mod 4)` |
| Grids.Rotate90InRange | ImageEditor.java:190-197 | a quarter turn only moves pixels, so a buffer whose pixels all have a clear top byte keeps that |
| Grids.RotateByInRange | ImageEditor.java:174-201 | any number of turns keeps every pixel in range, so `rotate` may be followed by `downSample` |
| Grids.RotateByRecurse | ImageEditor.java:176-200 | for a degree `rotate` does not reject, its turns are one quarter turn followed by nothing (reduced degree 90) or by the turns of the recursive call on `reduced - 90` |
| Grids.RotationStepsRecurse | ImageEditor.java:179-200 | a reduced degree above 90 makes one turn more than `reduced - 90`, which is the recursive call `rotate` makes |
| Grids.ChannelIsByte | ImageEditor.java:231-236 | on a pixel with a clear top byte, each channel of the division split is a byte and equals the mask-based channel |
| Grids.RowSumBounds | ImageEditor.java:229-237 | `RowSum` is the innermost accumulator of lines 229-237, adding pixels left to right. A channel summed over `n` pixels of an in-range row lies in `0 .. 255 * n` |
| Grids.BlockSumBounds | ImageEditor.java:228-238 | `BlockSum` adds the `RowSum`s of a block row by row, as lines 228-238 do. A channel summed over an in-range `m x n` block lies in `0 .. 255 * (m * n)` |
| Grids.MeanIsByte | ImageEditor.java:239-241 | the truncated mean of a sum of `count` bytes is a byte and equals the floor quotient |
| Grids.ChannelMean | ImageEditor.java:239-241 | the block's channel sum divided by the block size is a byte, equal to `sum / (hs * ws)` |
| Grids.DownSampled | ImageEditor.java:219-248 | on valid scales, the output of `downSample` is `(H / hs) x (W / ws)` |
| Grids.DownSampledAt | ImageEditor.java:219-248 | `ScaledPixel` is the pixel painted at line 245, `BlockAverage` of the block at (br * hs, bc * ws), which recombines the channel means as in lines 242-243. Each output pixel's block lies inside the buffer, and each output channel is a byte equal to the truncated mean of that channel over its `hs x ws` block |
| Grids.DownSampledInRange | ImageEditor.java:219-248 | every output pixel again has a clear top byte |
| Grids.DownSampleByOne | ImageEditor.java:213-248 | `ValidScales` is the rejection test of lines 213-216 negated. Scales 1 and 1 are accepted and `downSample(1, 1)` is the identity |
| Grids.ScaledPixelByOne | ImageEditor.java:227-245 | a 1 x 1 block averages to its own pixel, so the division split and repacking lose nothing on an in-range pixel |
| Grids.RowSumUniform | ImageEditor.java:229-237 | over a row of one repeated pixel, a channel sums to `n` times its value |
| Grids.BlockSumUniform | ImageEditor.java:228-238 | over a uniform block, a channel sums to `m * n` times its value |
| Grids.ChannelMeanUniform | ImageEditor.java:239-241 | the mean channel of a uniform block is that channel's value |
| Grids.DownSampleUniform | ImageEditor.java:219-248 | down-sampling a uniform image gives a uniform image of the same pixel |
| Grids.Patched | ImageEditor.java:281-300 | the buffer after a fitting patch keeps its dimensions |
| Grids.RowOpaqueBounds | ImageEditor.java:283-298 | `RowOpaque` counts the pixels of one patch row that fail the transparency test, as `++count` does there. A row's count of written pixels is at most its length, is 0 exactly when all are transparent, and is full exactly when none is |
| Grids.GridOpaqueBounds | ImageEditor.java:282-299 | `GridOpaque` adds the `RowOpaque` of the first `m` patch rows. The same three facts over the first `m` rows of the patch |
| Grids.OpaqueCountBounds | ImageEditor.java:281-300 | `OpaqueCount` is `GridOpaque` over every patch row. The count `patch` returns is at most `pHeight * pWidth`, is 0 exactly when every patch pixel is transparent, and is `pHeight * pWidth` exactly when none is |
| Grids.PatchAllTransparent | ImageEditor.java:281-300 | a fully transparent patch changes nothing and counts 0 |
| Grids.PatchNoneTransparent | ImageEditor.java:281-300 | a patch with no transparent pixel counts `pHeight * pWidth`, is copied whole into its rectangle, and leaves every cell outside the rectangle alone |
| Grids.PatchedInRange | ImageEditor.java:296 | patching with in-range pixels keeps the buffer in range |
| Grids.PatchIdempotent | ImageEditor.java:281-300 | applying the same patch at the same place a second time changes nothing more |
| Grids.PatchedByPackedKey | ImageEditor.java:285-296 | with in-range patch pixels and a byte key, a rectangle cell takes the patch pixel unless that pixel equals the packed key, and otherwise keeps its old value |
| Grids.BlockStart | ImageEditor.java:221-225 | a block starting before the end of the buffer is one of the `total / s` blocks |
| Grids.BlockInside | ImageEditor.java:221-230 | block `k` of `total / s` blocks of size `s` lies inside the buffer |
| Grids.BlockCount | ImageEditor.java:221-225 | when the scan in steps of `s` ends, it has visited exactly `total / s` blocks |
| Editor.ImageEditor.constructor | ImageEditor.java:85-87 | a session starts on a decoded buffer with both dimensions at least 1 |
| Editor.ImageEditor.TurnQuarter | ImageEditor.java:183-197 | one turn leaves a fresh buffer equal to `Rotate90` of the old buffer |
| Editor.CopyOf | ImageEditor.java:183-189 | the back-up is a fresh buffer of the same dimensions holding the same pixels |
| Editor.QuarterTurned | ImageEditor.java:190-197 | the remap produces a fresh W x H buffer equal to `Rotate90` of its input |
| Editor.ImageEditor.Rotate | ImageEditor.java:174-201 | the new buffer is `RotationSteps(degree)` quarter turns of the old one, and it stays in range if the old one was. With no turn the buffer object is untouched; otherwise it is fresh. The recursion terminates |
| Editor.ImageEditor.DownSample | ImageEditor.java:211-249 | rejected scales (`ValidScales` false) leave the buffer object untouched. Valid scales yield a fresh buffer equal to `DownSampled` of the old one, still in range |
| Editor.ScaleRow | ImageEditor.java:223-246 | the column loop fills row `newRow` of the output with `ScaledPixel` of each block and changes no other row |
| Editor.AverageBlock | ImageEditor.java:227-243 | the pixel painted for a block is `BlockAverage` of that block |
| Editor.BlockSums | ImageEditor.java:227-238 | the accumulators end as the three channel sums over the block |
| Editor.AddRowSums | ImageEditor.java:229-237 | the innermost loop adds a row's three channel sums to the accumulators |
| Editor.ImageEditor.Patch | ImageEditor.java:266-301 | `PatchFits` is the two placement checks of lines 271-279 passing. A placement that does not fit returns 0 and leaves the pixels alone. A fitting one returns `OpaqueCount` of the patch and leaves `Patched` of the old buffer, even when the patch buffer is the buffer itself |
| Editor.PatchRow | ImageEditor.java:283-298 | `Visited` says which buffer cells the loops have reached after `pr` rows and `pc` pixels, and `Staged` is a cell's value at that point: the patch pixel if visited and opaque, the old value otherwise. One patch row adds its count of non-transparent pixels and stages every pixel of that row |
| Editor.StagedSkip | ImageEditor.java:292-295 | skipping a transparent pixel changes no staged cell |
| Editor.StagedWrite | ImageEditor.java:296-297 | copying an opaque pixel stages that cell with the patch pixel and no other cell |
| Editor.StagedNextRow | ImageEditor.java:282-283 | a finished patch row is the start of the next |
| Editor.StagedDone | ImageEditor.java:281-300 | before the loops nothing is staged; after them the buffer is `Patched` |

## Left out

- `open`, `load`, `save` and `printImage`. These are file I/O through `javax.imageio`, the warning printed for non-RGB image types, `IOException`, and console output through `printf`. The constructor takes the decoded buffer in place of `load`'s file read.
- The alpha mask applied by `open` (ImageEditor.java:71-72) becomes the `InRange` precondition of `DownSample`: every pixel lies in `[0, 2^24)`.
- `Editor.ImageEditor.DownSample`: requires an in-range buffer, every pixel in `[0, 2^24)`. Other pixels can reach the buffer: the constructor accepts any `int` buffer, the Java field `image` (ImageEditor.java:40) is package-visible, and `patch` copies unmasked pixels. On such a pixel the division split does not give bytes. If the sign bit is set, the channels can be negative. If the top byte is between `0x01` and `0x7F`, the red part exceeds 255, up to 32767. The model does not cover `downSample` on such a buffer.
- `Math.pow(16, 4)` and `Math.pow(16, 2)` are floating point. The model uses the exact integers 65536 and 256 that the casts produce.
- The masks and shifts of the unpack functions are modelled as floor division by `2^16`, `2^8` and `1` followed by a non-negative remainder modulo 256. On a two's-complement `int` this is exactly `(rgb & (0xff << s)) >> s`. The model does not state it on bit-vectors.
- `Pixels.PackInt`: requires three bytes, as its documentation does. The model does not cover the wrapped bits that other arguments would give.
- 32-bit overflow of the `downSample` accumulators, of `heightScale * widthScale` and of `startRow + pHeight` / `startColumn + pWidth`. The model uses unbounded integers there. The accumulators stay below `255 * H * W` and cannot overflow for buffers smaller than about eight million pixels.
- Rows shared between arrays. A Java `int[][]` is an array of row objects, so `patchImage` may share some rows with `image` without being `image`. For example, on a buffer of three or more rows with no transparent patch pixel, `patch(1, 0, new int[][]{image[0], image[1]}, ...)` overwrites row 1 before reading it, so row 2 ends as the old row 0. `Patched` gives the old row 1 there. An `array2` cannot share rows, so the model covers only a patch that is the whole buffer or shares nothing with it.
- Java's jagged `int[][]` arrays. The buffer and the patch are `array2`, so every row has the width of row 0, as every buffer built by the editor does. A ragged `patchImage` is not modelled.
- The `NullPointerException` and `ArrayIndexOutOfBoundsException` behaviour on an empty buffer or an empty patch. `Valid()` and `patchImage.Length0 >= 1` exclude those inputs.
