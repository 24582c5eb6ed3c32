# 8-bit grayscale image operations, modelled in Dafny

This project models the core of `image8bit.c`, a small C library of 8-bit
grayscale images. An image is a width, a height, a maximum gray level
(`maxval`, white) and a row-major array of one byte per pixel. The position
(x, y) lives at index `x + y*width`.

The model covers the following, as pure functions over an immutable `Image`
datatype:

- the pixel store: creation, the position and rectangle checks, the index
  function `G`, and pixel get/set;
- the in-place pixel transforms: negative and threshold;
- the geometric transforms that allocate a new image: rotate, mirror and
  crop;
- paste;
- sub-image match and locate;
- the box blur, through a summed-area table. It is proved equal to the
  direct (brute-force) mean.

The pixel statistics routine is modelled too, as written and corrected (see
"## Findings").

The source works in place, so an in-place operation `f(img)` is modelled as
a function returning the new image. "The original is not modified" holds
because these are functions.

Modules:

- `Arith`: non-linear integer facts.
- `Raster`: the image record, `G`, get/set, creation, and image equality
  from pixel equality.
- `Pointwise`: negative and threshold.
- `Geometry`: rotate, mirror and crop.
- `Compositing`: paste.
- `SubImage`: match and locate.
- `Stats`: minimum and maximum.
- `Blur`: summed-area table and blur.

Some things the model settles where the source could be read more than one
way:

- **Rotate.** The comment above `ImageRotate` calls the rotation clockwise.
  Its assignment (line 509) sends input (y, i) to output (i, width-1-y),
  which turns the image counter-clockwise. The model follows the code: output
  (ox, oy) is input (width-1-oy, ox).
- **ImageValidRect** compares the far edge with a strict `<`. So a rectangle
  reaching the last column or row is refused, and so is the whole image. The
  model keeps the strict comparison, and crop and paste inherit it.
- **ImageLocateSubImage** carries no precondition on the sizes. Its match
  reads `img1` through an asserting accessor, so the exact condition under
  which no assertion can fire is `SubImage.ScanSafe`: either the pattern is
  wider or taller than the image (nothing is scanned), or the image has
  pixels. A pattern with no pixels matches at (0, 0) at once.
- **ImageBlur**'s table entries are `uint32_t` and the window sum is a
  `double`. For images of at most 16843009 pixels (255 × pixels < 2^32)
  every value is exact. `(uint8)((soma + count/2)/count)` then truncates a
  non-negative quotient, which is the integer division
  `(soma + count/2) / count` that the model uses.

## Model

| member | source | states |
|---|---|---|
| Raster.ValidPos | image8bit.c:351-354 | (x, y) is a position of the image: 0 <= x < width and 0 <= y < height |
| Raster.ValidRect | image8bit.c:357-364 | under the valid-corner precondition of line 361, the rectangle passes when 0 <= w < width - x and 0 <= h < height - y, with strict far-edge comparisons |
| Raster.ValidRectFarCorner | image8bit.c:357-364 | given a valid corner, a rectangle passes the check exactly when its size is non-negative and its far corner (x+w, y+h) is itself a valid position |
| Raster.ValidRectRefusesEdge | image8bit.c:357-364 | a rectangle that reaches the last column or the last row is refused, although it lies inside the image |
| Raster.Index | image8bit.c:376-384 | the linear index of a valid position lies inside the pixel array |
| Raster.IndexValue | image8bit.c:376-384 | the index of (x, y) is `x + y*width`, the value line 380 computes |
| Raster.IndexRoundTrip | image8bit.c:376-384 | the index determines the position: `index % width` is x and `index / width` is y |
| Raster.IndexOnto | image8bit.c:376-384 | every slot of the pixel array is the index of some valid position |
| Raster.Create | image8bit.c:178-208 | the new image has the requested size and maxval and every pixel black (0) |
| Raster.GetPixel | image8bit.c:387-392 | under the valid-position precondition of line 389, the level read is `pixel[Index(img, x, y)]` |
| Raster.SetPixel | image8bit.c:387-400 | after a set, reading the same position gives the new level and every other position keeps its level |
| Raster.SetOwnPixel | image8bit.c:387-400 | storing back the level just read leaves the image unchanged |
| Pointwise.Negative | image8bit.c:414-426 | each level p becomes 255 - p, whatever maxval is; size and maxval are kept |
| Pointwise.NegativeInvolution | image8bit.c:414-426 | the negative of the negative is the original image |
| Pointwise.Threshold | image8bit.c:431-450 | a level below thr becomes 0 and any other becomes maxval |
| Pointwise.ThresholdTwoLevels | image8bit.c:431-450 | after a threshold only black and maxval occur |
| Pointwise.ThresholdIdempotent | image8bit.c:431-450 | for 0 <= thr <= maxval, thresholding twice equals thresholding once |
| Geometry.Rotate | image8bit.c:495-515 | the result is height-by-width with the same maxval; output (ox, oy) holds input (width-1-oy, ox) |
| Geometry.RotateMovesPixels | image8bit.c:505-510 | the assignment of the loop: input (y, i) lands at output (i, width-1-y) |
| Geometry.RotateCounterClockwise | image8bit.c:505-510 | the input's top-right corner becomes the output's top-left corner, and the input's bottom-left corner becomes the output's bottom-right corner, so the turn is counter-clockwise |
| Geometry.RotateTwice | image8bit.c:495-515 | two quarter turns give the half turn: (x, y) holds input (width-1-x, height-1-y) |
| Geometry.RotateFourTimes | image8bit.c:495-515 | four quarter turns give back the original image |
| Geometry.Mirror | image8bit.c:524-548 | same size and maxval; input (x, y) appears at (width-1-x, y) |
| Geometry.MirrorInvolution | image8bit.c:524-548 | mirroring twice gives back the original image |
| Geometry.Crop | image8bit.c:562-582 | for a rectangle that passes the check, the result is w-by-h with the source's maxval, and its (i, j) is the source's (x+i, y+j) |
| Compositing.Paste | image8bit.c:591-602 | inside the pasted rectangle the destination shows img2; outside it the destination is unchanged; size and maxval are the destination's |
| Compositing.CropAfterPaste | image8bit.c:562-602 | cropping the rectangle just pasted gives back the pasted image, with the destination's maxval |
| Compositing.PasteOwnCrop | image8bit.c:562-602 | pasting a crop back where it came from leaves the image unchanged |
| SubImage.MatchColumn | image8bit.c:639-646 | the inner loop is true exactly when one column of img2, from a given row on, equals the pixels of img1 it covers |
| SubImage.MatchColumns | image8bit.c:638-647 | the outer loop is true exactly when all columns of img2 from a given one on match |
| SubImage.MatchSubImage | image8bit.c:630-650 | returns true exactly when every pixel of img2 equals the pixel of img1 it covers at offset (x, y) |
| SubImage.MatchIffCrop | image8bit.c:630-650 | for a rectangle that passes the check, matching at (x, y) holds exactly when cropping that rectangle gives img2 (up to maxval) |
| SubImage.LocateInColumn | image8bit.c:662-671 | the inner scan returns the first matching row offset of one column, or reports that none of the remaining row offsets match |
| SubImage.LocateFrom | image8bit.c:661-674 | the outer scan returns the first matching offset in scan order from a given column on, or reports that none matches |
| SubImage.LocateSubImage | image8bit.c:656-675 | found exactly when some offset matches; then (px, py) is a matching offset and no offset scanned earlier matches; otherwise px and py are unchanged |
| SubImage.LocateSelf | image8bit.c:656-675 | a non-empty image is found inside itself at (0, 0) |
| SubImage.LocateTooLarge | image8bit.c:661-662 | a pattern wider or taller than the image is not found and the positions are left alone |
| SubImage.LocateAfterPaste | image8bit.c:591-675 | after pasting src at (x, y), locating src succeeds at (x, y) or at an offset scanned earlier |
| Stats.ScanAsWritten | image8bit.c:336-347 | the scan with `else if` always yields the true minimum, and yields the true maximum whenever the running minimum starts at or below the running maximum (it can miss it otherwise) |
| Stats.StatsAsWritten | image8bit.c:332-348 | the statistics as written: min is the least of `*min` and all levels; max is guaranteed to be the greatest whenever `*min <= *max` at the start |
| Stats.StatsAsWrittenMissesMax | image8bit.c:340-345 | from `*min = 255`, `*max = 0`, a one-pixel image of level 5 reports max 0 |
| Stats.Scan | image8bit.c:326-348 | with two independent comparisons the scan yields both the least and the greatest level |
| Stats.ImageStats | image8bit.c:326-348 | min is the least of `*min` and all levels; max is the greatest of `*max` and all levels |
| Stats.StatsAgreeWhenOrdered | image8bit.c:340-345 | when `*min <= *max` at the start, the as-written and the corrected statistics agree |
| Blur.PrefixRecurrence | image8bit.c:725-740 | the four cases that fill the table: the pixel plus the entries to the left and above, minus the one diagonally up-left, with missing entries counting as zero |
| Blur.PrefixEdges | image8bit.c:754-756 | an entry at row or column -1, which the source replaces by 0, is the empty sum |
| Blur.InclusionExclusion | image8bit.c:754-759 | d - b - c + a, read off the table, is the sum of the window [xm..xM] x [ym..yM] |
| Blur.BruteColumnClipped | image8bit.c:699-710 | walking a column of the unclipped window and skipping invalid positions sums the clipped column, and counts its length |
| Blur.BruteClipped | image8bit.c:699-710 | the sum and count over the unclipped window with the validity test equal the sum and area of the window clipped to the image |
| Blur.WindowLo | image8bit.c:747-749 | the low clamp `xm` (and `ym`): the larger of v - d and 0, so it is never negative and never below v - d |
| Blur.WindowHi | image8bit.c:746-748 | the high clamp `xM` (and `yM`): the smaller of v + d and n - 1, so it never exceeds n - 1 and never exceeds v + d |
| Blur.RoundedMean | image8bit.c:761 | the rounded mean `(sum + count/2) / count`: the r with r*count <= sum + count/2 < (r+1)*count, and equivalently the integer nearest to sum/count with ties going up (count*(2r-1) <= 2*sum < count*(2r+1)) |
| Blur.WindowFacts | image8bit.c:746-750 | the clipped bounds xm, xM, ym, yM enclose the pixel; the brute-force sum and count are the sum and area of that box |
| Blur.WindowSumRange | image8bit.c:692-713 | every window has at least one pixel, and its sum is between 0 and 255 times its count |
| Blur.BrutePixelClipped | image8bit.c:692-713 | the brute-force level is the rounded mean of the clipped box |
| Blur.BlurRef | image8bit.c:692-715 | the brute-force blur: every level is the rounded mean of the valid pixels of its window in the original image |
| Blur.SummedAreaTable | image8bit.c:721-740 | the table built column by column holds at [y][x] the sum of all original pixels with column <= x and row <= y |
| Blur.TableLevel | image8bit.c:742-761 | the level computed from four table entries and the clipped count is the brute-force level of that pixel |
| Blur.Blur | image8bit.c:684-765 | the table-based blur gives exactly the brute-force blurred image |
| Blur.BrutePixelZeroRadius | image8bit.c:699-713 | with dx = dy = 0 the brute-force window of (x, y) holds only that pixel, so its level is the pixel's own |
| Blur.BlurZeroRadius | image8bit.c:684-765 | with dx = dy = 0 the blur leaves the image unchanged |
| Blur.BlurWithinWindow | image8bit.c:684-765 | every blurred level lies between the darkest and the brightest pixel of its window |
| Blur.BlurWholeImage | image8bit.c:684-765 | a window covering the whole image gives every pixel the rounded mean of all pixels |

## Left out

- ImageLoad, ImageSave and skipComments: file I/O on PGM files.
- ImageBrighten and ImageBlend: floating-point arithmetic. Their comments
  (lines 453 and 609) promise saturation, but the code (lines 465 and 620)
  casts the double straight to `uint8`, which is undefined behaviour for a
  value outside 0..255; the promised saturation is not implemented.
- ImageInit, the PIXMEM, CountLocate, SumBlur and CountBlur counters, and
  the error-message plumbing: instrumentation only.
- ImageDestroy and the NULL returns on allocation failure: memory
  management. The model's allocating operations always succeed.
- ImageWidth, ImageHeight and ImageMaxval: these are the fields of the
  `Image` datatype.
- The `uint32_t` wrap of the blur table and the `int` overflow of
  `width * height`: integers are unbounded. For these two, the model agrees
  with the source for images of at most 16843009 pixels. The blur radius is
  a separate bound, given in the Blur.Blur line below.
- The stack-allocated table of the blur: stack exhaustion on large images.
- Blur.Blur: requires dx, dy >= 0. With dx < 0 the clamps at lines
  746-747 always pick `xM = x+dx` and `xm = x-dx`. At column x = 0 this
  makes `xM` negative, so `sum[yM][xM]` at line 757 reads outside the
  table. That is undefined behaviour for every non-empty image, and the
  same holds for dy < 0 at row y = 0.
- Blur.Blur, Blur.BlurRef and Blur.BlurWholeImage: no upper bound on the
  radius. The source adds `x + dx` and `y + dy` in C `int`, in the clamps at
  lines 746 and 748 and in the brute-force bounds at lines 699-700. So it
  also needs dx <= INT_MAX - (width - 1) and dy <= INT_MAX - (height - 1).
  A larger radius overflows, which is undefined behaviour. With wrap-around
  it makes `xM` negative, and line 757 then reads outside the table. For such
  radii the model's whole-image mean is a value the source does not promise.
- SubImage.MatchSubImage, SubImage.MatchColumn and SubImage.MatchColumns:
  require the whole of img2 to fit at (x, y). The
  source only asserts that (x, y) itself is valid. A pattern that sticks out
  is then fine as long as a mismatch stops the loop before the first read
  outside img1. Which such patterns pass depends on the pixel data.
- Pointwise.Negative and Pointwise.Threshold: modelled on the pixel array
  as a whole. The source's column-by-column visiting order cannot change
  the result, since each pixel is read and written once, on its own.

## Findings

| source | as written | input that shows it | evidently intended | confidence | as-written member | corrected member |
|---|---|---|---|---|---|---|
| image8bit.c:340-345 | the maximum is compared only in the `else` branch of the minimum test, so a pixel that lowers the running minimum is never considered for the maximum | a 1x1 image of level 5, with `*min = 255` and `*max = 0` at the start: the result is max = 0 | `*max` is the greatest gray level, compared independently of the minimum | high; not executed | Stats.StatsAsWrittenMissesMax | Stats.ImageStats |
