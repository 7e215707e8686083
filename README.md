# distill: block-quantising an image to its dominant colours

`distill.go` reads an image and extracts a palette of its dominant colours
with a k-means library. It then walks the image in square blocks of
`BlockSize` pixels. For each block it averages the colours, matches the
average to the nearest palette colour by CIEDE2000 distance, and paints that
colour over the block, in place on one pixel array. This project models that
block pipeline and proves what it computes.

Modules:

- `Arith` (arith.dfy): the integer facts the other modules rest on: products,
  truncating division, and the uniqueness of quotient and remainder.
- `Colour` (colour.dfy): 8-bit `RGBA` pixels and their 16-bit widening
  (`RGBA()` returns each channel times `0x101`). It also holds the uint32
  wrap-around and the uint8 truncation, and `Image`, the value of a pixel
  array as columns of pixels (`Grid`).
- `Average` (average.dfy): `calculateAverageBlockColour` as a method over
  the pixel array. It is proved equal to `BlockAverage`, which sums each
  channel with uint32 wrap-around and divides by the uint32 pixel count.
  A zero count is the divide-by-zero panic (None).
- `Matcher` (nearest.dfy): `nearestColour` as a method, proved equal to
  `Nearest`, the first palette entry at the least distance.
- `Fill` (fill.dfy): `fillBlock` as a method over the pixel array, with its
  frame property. The painted square is the closed
  `[blockX, blockX+blockSize] x [blockY, blockY+blockSize]`, clipped to the
  image.
- `Palette` (palette.dfy): the conversion loop of `extractProminentColours`
  around the k-means call.
- `Blocks` (blocks.dfy): the grid of block origins the driver visits, their
  order, the rectangle `SubImage` cuts out at each origin, and the partition
  of the image into block regions.
- `Distill` (distill.dfy): the block loop of `main` as a method. It is
  proved equal to `Distilled`, the loop body run over the origins, which
  leaves every pixel in a palette colour.

## Model

| member | source | states |
|---|---|---|
| Average.CalculateAverageBlockColour | distill.go:124-144 | the result is `BlockAverage` of the pixel array over the block: per channel, the uint32-wrapped sum of the 16-bit values divided by the uint32 pixel count, then by 0x101, cut to 8 bits, with alpha 255; None (panic) when the count is 0 |
| Average.RegionSumBounds | distill.go:129-136 | when every pixel's channel lies in [lo, hi], the exact channel sum of the region lies in [lo·n, hi·n] for n pixels |
| Average.AverageExact | distill.go:131-143 | for 1 to 65537 pixels, the average exists, each channel is (exact sum / n) / 0x101 with truncating division, and alpha is 255 |
| Average.NoWrap | distill.go:125-143 | a sum of at most n values of 0xffff, with n ≤ 65537, neither wraps in uint32 nor loses bits in the uint8 cast |
| Average.AverageWithinBounds | distill.go:129-143 | for 1 to 65537 pixels whose channel lies in [lo, hi], the averaged channel lies in [lo, hi] |
| Average.AverageOfUniform | distill.go:129-143 | a region of 1 to 65537 pixels that share one r, g, b averages to exactly that colour with alpha 255, whatever the pixels' alpha |
| Average.AverageIgnoresAlpha | distill.go:131-143 | two regions that agree on r, g and b have the same average, at any size, so input alpha plays no part |
| Average.ColumnSumReadsChannel | distill.go:130-135 | the inner-loop sum of a channel depends only on that channel of the column's pixels |
| Average.RegionSumReadsChannel | distill.go:129-136 | the region sum of a channel depends only on that channel of the region's pixels |
| Average.WhiteBlockOf257Wraps | distill.go:125-143 | past 65537 pixels the uint32 sums wrap: a white 257 x 257 block averages to (1, 1, 1, 255) |
| Average.TwoRedTwoBlack | distill.go:139-143 | division truncates: two red and two black pixels average to red 127, not 128 |
| Matcher.ScanFindsFirstNearest | distill.go:107-120 | after the first n entries the loop holds nothing exactly when all of them are at MaxFloat64 or beyond; otherwise it holds the lowest-index entry at the least distance |
| Matcher.FirstNearestIsUnique | distill.go:116 | two lowest-index nearest entries are the same entry, so the strict `<` choice is well defined |
| Matcher.NearestIndexIsFirstMinimum | distill.go:106-122 | the result is nil exactly when no entry is below MaxFloat64 (in particular for an empty palette); otherwise it is entry i exactly when i is the lowest-index entry at the least distance |
| Matcher.NearestIsMember | distill.go:114-121 | a non-nil result is a palette entry |
| Matcher.MemberMatchesItself | distill.go:114-121 | for a distance that is non-negative and zero only between equal colours, a colour in the palette is matched to itself |
| Matcher.NearestColour | distill.go:106-122 | the loop returns `Nearest`: nil exactly when no entry is below MaxFloat64, otherwise the first entry at the least distance |
| Fill.Set | distill.go:77 | writes the colour at (x, y) when it is inside the image and changes nothing else; outside the image it changes nothing |
| Fill.FillBlock | distill.go:74-80 | every in-bounds pixel of the closed square `[blockX, blockX+blockSize] x [blockY, blockY+blockSize]` takes the colour and every other pixel keeps its value, that is, the array becomes `Filled` of its old value |
| Fill.FillIsIdempotent | distill.go:74-80 | filling the same square in the same colour twice gives the same image as filling it once |
| Fill.FillReachesNextBlocks | distill.go:75-76 | the `<=` bounds paint the first column of the block to the right and the first row of the block below |
| Palette.ExtractProminentColours | distill.go:82-104 | the library is called with sample width `width / 2`; on its error the result is that error; otherwise there is one opaque colour per item, in the same order, with each channel cut to uint8 |
| Palette.ToRGBAKeepsLowBits | distill.go:93-97 | a converted item has alpha 255; each channel is the item's channel modulo 256, so it is unchanged when it fits in 8 bits |
| Blocks.Rect | distill.go:60 | `image.Rect` orders each pair of corners: the result has min ≤ max on both axes and the same two coordinates on each axis |
| Blocks.Intersect | distill.go:60 | the intersection holds exactly the points in both rectangles, and is the zero rectangle when it is empty |
| Blocks.SubImageIsClippedBlock | distill.go:60 | for blockSize ≥ 1 and an origin inside the image, `SubImage` cuts out `[x, BlockEnd(x)) x [y, BlockEnd(y))`, the block clipped to the image |
| Blocks.NonPositiveFirstBlockIsEmpty | distill.go:57-60 | for blockSize ≤ 0 the rectangle cut out at the first origin (0, 0) is the zero rectangle |
| Blocks.ColumnOriginsExactly | distill.go:58 | the inner loop started at a multiple y of blockSize visits (x, b) exactly for the multiples b of blockSize with y ≤ b < height |
| Blocks.OriginsFromExactly | distill.go:57-58 | the outer loop started at a multiple x of blockSize visits exactly the (a, b) with x ≤ a < width, 0 ≤ b < height, and both multiples of blockSize |
| Blocks.OriginsExactly | distill.go:57-58 | for blockSize ≥ 1, the loops visit (x, y) exactly when 0 ≤ x < width, 0 ≤ y < height and both are multiples of blockSize |
| Blocks.ColumnOriginsInOrder | distill.go:58 | the inner loop visits its origins in strictly increasing y |
| Blocks.OriginsFromInOrder | distill.go:57-58 | the loops visit origins in x-major, y-minor order, each once |
| Blocks.OriginsInOrder | distill.go:57-58 | the whole grid of origins is visited in x-major, y-minor order, each once |
| Blocks.BlockStart | distill.go:57-60 | the start of the block holding coordinate i is a multiple of blockSize at most i and within blockSize of it |
| Blocks.BlockStartUnique | distill.go:57-60 | exactly one multiple of blockSize lies within blockSize at or below i |
| Blocks.BlocksPartitionImage | distill.go:57-60 | every pixel lies in the clipped region `[x, x+B) x [y, y+B)` of exactly one visited origin |
| Distill.BlockColoursPickFromPalette | distill.go:61-62 | the colour the program picks for any block is a palette colour |
| Distill.NonPositiveBlockSizePanics | distill.go:57-61 | for blockSize ≤ 0 the first block's pixel count is 0, so the first average divides by zero (lines 138-139): the program panics there |
| Distill.DistillBlocks | distill.go:57-66 | the loop completes exactly when `Distilled` of the old image is defined (no block panics), and then the pixel array equals it |
| Distill.RunAppend | distill.go:57-66 | running the loop body over two lists of origins one after the other is running it over their concatenation |
| Distill.ColumnVisitsColumnOrigins | distill.go:58-65 | the inner loop is the loop body run over the column's origins, in order |
| Distill.ColumnsVisitOrigins | distill.go:57-66 | the outer loop is the loop body run over the grid's origins from column x on, in order |
| Distill.DistilledRunsOverGrid | distill.go:57-66 | the whole block loop is the loop body run over the grid of origins, in x-major, y-minor order |
| Distill.ColumnPaints | distill.go:58-65 | the inner loop paints every pixel of its columns, from its row on, in a palette colour, and leaves each other pixel unchanged or in a palette colour |
| Distill.ColumnsPaint | distill.go:57-66 | the outer loop paints every pixel from its column on in a palette colour, and leaves each other pixel unchanged or in a palette colour |
| Distill.DistilledIsQuantised | distill.go:57-66 | when the loop completes, every pixel of the image is a palette colour |

## Left out

- K-means clustering (`prominentcolor.KmeansWithAll`): a library whose algorithm is not visible. It is a parameter of `ExtractProminentColours`, answering a list of items or an error. It receives the number of colours wanted, the image and the sample width `width / 2`. The cropping flag `ArgumentNoCropping` and the nil background masks are constants of the call and are not passed to `kmeans`. What the library does with the image and the sample width is not modelled.
- The CIEDE2000 distance and `colorful.MakeColor`: floating-point library code. The distance is a real-valued parameter. A palette colour is modelled as the opaque 8-bit colour it was made from. The round trip of an 8-bit colour through `colorful.Color` and back to 8 bits is exact, so painting with it writes that colour.
- Float64 rounding in the distance comparison: distances are reals. NaN and +Inf behave like reals at or above MaxFloat64, because the best distance so far never exceeds MaxFloat64.
- Flag parsing, argument checks, opening, cloning and saving the image, printing and `os.Exit` (distill.go:17-55, 68-71): I/O. `DistillBlocks` takes the pixel array, the block size and the palette as parameters.
- Premultiplied alpha: the pixel array holds `color.RGBA` values, whose `RGBA()` widens each channel by `0x101`. Other colour types are not modelled.
- The image origin is taken to be (0, 0), as it is for an image decoded from a file. The loops start at 0 and compare against `Bounds().Max`.
- Distill.DistillBlocks: after a panic, the pixel array holds the partly painted image. The contract says only that the method answers false; the partial image is not stated.
- Distill.DistillBlocks: requires blockSize ≥ 1. With a block size of 0 or less and a non-empty image, the rectangle cut out at (0, 0) holds no pixel and the program panics on the first average (NonPositiveBlockSizePanics). With width ≥ 1 and height 0 the outer loop never ends. With width 0 nothing happens. The method does not model these cases.
- Overflow of Go's `int` in `x + BlockSize`, `y + BlockSize` and the width × height product is not modelled. The pixel count is cut to uint32 as the code does.
- Fill.FillBlock: states which pixels change and which do not, but not the count of `Set` calls, at most (blockSize+1)², that the loops make.
- A half-open fill, and an error result for an empty region, describe a redesign rather than the code. The model follows the code: an inclusive fill, and a divide-by-zero panic.
- `image.Rect`, `Rectangle.Intersect` and `RGBA.SubImage` belong to Go's standard library and are not part of distill.go. `Blocks.Rect`, `Blocks.Intersect` and `Blocks.SubImageBounds` follow their documented behaviour: the corners are ordered, the intersection is clipped, and an empty intersection gives the zero rectangle.
