# Pixelation core of the image processor

The application loads an image and pixelates it. It cuts the image into squares of
`squareSize` pixels, computes each square's average colour channel by channel
(`getAverageColor`), and paints the square with that colour. It offers two strategies:

- **single-threaded**: one grid of squares anchored at (0, 0) covers the whole image;
- **multi-threaded**: the image is split at `width / 2` and `height / 2` into four
  quadrants, and each quadrant runs its own grid, anchored at the quadrant's own corner.
  A square is painted only inside its quadrant, but its average is read over the square
  clipped to the whole image.

The model has three modules:

- `Raster` (raster.dfy): pixels as three channel values, rectangles, and the per-channel
  sums, pixel count and floor mean of a rectangle, as pure functions.
- `Tiling` (tiling.dfy): the tile grid, the four quadrants, and the images the two
  passes produce, stated as values (`Pixelate`, `PixelateQuadrants`). It also holds the
  lemmas about them.
- `Engine` (engine.dfy): the application object as a class. The two image buffers are
  two-dimensional arrays indexed `[x, y]`, as `getRGB(x, y)` indexes them. A ghost table
  `writes` counts the `setRGB` calls made on each pixel. The loops of `getAverageColor`
  and of the tile passes are `while` loops, each proved against the `Tiling` functions.

The two strategies are meant to produce the same picture. They do when the tile size
divides both `width / 2` and `height / 2`, and in general they do not:

- `Tiling.QuadrantsAgreeWhenAligned` proves they agree when the tile size divides both.
- `Tiling.QuadrantsDisagreeExample` gives one image on which they differ. On a 3×1 image
  of black, black and grey 254, with tiles of 2, pixel (1, 0) comes out black from the
  single-threaded pass and grey 127 from the multi-threaded pass. This is a single
  example. The model does not claim the passes differ for every tile size that fails
  to divide `width / 2` or `height / 2`.

The model follows the code, which is the behaviour stated here.

## Model

| member | source | states |
|---|---|---|
| Raster.ColumnSum | src/App.java:98-102 | the channel totals of one column of a tile: the pixels of column x from row y0 to row y1 − 1, added from the top |
| Raster.ColumnsSum | src/App.java:97-104 | the channel totals of columns x0 to x1 − 1 over rows y0 to y1 − 1, added a column at a time from the left, as the two loops add them |
| Raster.RectSum | src/App.java:97-104 | the channel totals `totalRed`, `totalGreen` and `totalBlue` that the loops gather over a rectangle |
| Raster.Count | src/App.java:95-103 | `totalPixels`: the number of pixels in a band of columns, counted a column at a time |
| Raster.Average | src/App.java:107-109 | the floor mean of each channel over a non-empty rectangle: its total divided by its pixel count |
| Raster.AverageBetween | src/App.java:97-109 | if every pixel read lies channel-wise between two colours, so does the floor mean |
| Raster.AverageIsColor | src/App.java:107-111 | the average of colours has every channel in 0..255, so the `Color` built from it is valid |
| Raster.AverageOfUniform | src/App.java:97-109 | a square of one colour averages to that colour |
| Raster.CountIsArea | src/App.java:95-103 | `totalPixels`, counted a column at a time over a band h rows high, equals the width of the band times h |
| Raster.ColumnSumBetween | src/App.java:98-102 | the channel totals of one column lie between n times any lower and upper bound of its n pixels |
| Raster.ColumnsSumBetween | src/App.java:97-104 | the channel totals of the columns read lie between n times any lower and upper bound of the n pixels read, n being the pixel count |
| Raster.AverageOfTotals | src/App.java:107-109 | dividing the channel totals by the pixel count, both gathered column by column, gives the floor mean, and the count is positive |
| Raster.AverageOfPair | src/App.java:97-109 | two side-by-side pixels average to the floor of half their sum, channel by channel |
| Raster.AverageOfUniformPair | src/App.java:97-109 | a black pixel beside a grey one of level v, with v in 0..255, averages to grey of level v / 2 |
| Tiling.CellStart | src/App.java:179-180 | the grid point, stepping by `squareSize` from the origin, at or left of a coordinate: it lies less than one tile away from it and is a whole number of steps from the origin |
| Tiling.CellStartUnique | src/App.java:179-180 | tiles of one grid do not overlap: a point of the k-th tile belongs to that tile and no other |
| Tiling.CellStartIsGridPoint | src/App.java:179-180 | every pixel's tile starts at a grid point, and a grid point starts its own tile |
| Tiling.CellStartShift | src/App.java:243-244 | a grid anchored at a multiple of the tile size has the same tiles as the grid from 0 |
| Tiling.ReadRect | src/App.java:97-98 | the rectangle `getAverageColor` reads lies inside the image, holds at least one pixel, and is at most `squareSize` on each side |
| Tiling.TileValue | src/App.java:185-192 | the value a tile loop over a region leaves at a pixel: the floor mean over the image-clipped tile read from the corner of the pixel's grid cell, with the grid anchored at the region's corner |
| Tiling.Pixelate | src/App.java:179-196 | the image the sequential pass leaves: each pixel is the floor mean of its grid tile, anchored at (0, 0) and clipped to the image |
| Tiling.Quadrants | src/App.java:216-287 | the four worker regions: the split at `width / 2` and `height / 2`, with the bounds each worker's loops run between |
| Tiling.PixelateQuadrants | src/App.java:210-302 | the image the quadrant pass leaves: each pixel takes the tile value of its own quadrant's grid, averaged over the tile clipped to the whole image |
| Tiling.TileValueOnCell | src/App.java:224-229 | every pixel of a region's tile, clipped to the region, receives the average read from that tile's corner |
| Tiling.QuadrantOf | src/App.java:216-217 | each pixel lies in exactly the quadrant chosen for it, and that quadrant lies in the image |
| Tiling.QuadrantsPartition | src/App.java:216-288 | the four quadrants lie in the image, are pairwise disjoint and cover it; the right and bottom ones take the odd column and row |
| Tiling.PixelateIsImage | src/App.java:179-196 | both passes produce an image whose every pixel is a colour |
| Tiling.PixelateIsTileUniform | src/App.java:179-196 | after the single-threaded pass every grid tile is one colour |
| Tiling.PixelateFixesTileUniform | src/App.java:179-196 | the single-threaded pass leaves an image that is already one colour per tile unchanged |
| Tiling.PixelateIdempotent | src/App.java:179-196 | running the single-threaded pass twice with one tile size gives the same image as running it once |
| Tiling.QuadrantsAgreeWhenAligned | src/App.java:210-302 | when the tile size divides `width / 2` and `height / 2`, the quadrant pass gives the same image as the single-threaded pass |
| Tiling.TileValueOfUniform | src/App.java:179-196 | on an image that is one colour per grid tile, every pixel's tile averages to that pixel |
| Tiling.TileValueAtCorner | src/App.java:224-229 | a pixel in the first tile of a region's grid takes the average read from the region's corner |
| Tiling.PixelateQuadrantsAtCorner | src/App.java:216-229 | under the quadrant pass, a pixel in the first tile of its quadrant takes the average read from the quadrant's corner |
| Tiling.ExampleLeftTile | src/App.java:91-112 | with tiles of 2 on a one-row image, two black pixels on the left make the first tile average black |
| Tiling.ExampleRightTile | src/App.java:216-229 | on the 3×1 image, pixel (1, 0) starts the right quadrant, whose first tile averages black and grey 254 to grey 127 |
| Tiling.ExampleSequential | src/App.java:179-196 | the single-threaded pass paints pixel (1, 0) black, the average of columns 0 and 1 |
| Tiling.ExampleQuadrants | src/App.java:216-288 | the quadrant pass paints pixel (1, 0) grey 127, the average of columns 1 and 2 |
| Tiling.QuadrantsDisagreeExample | src/App.java:216-288 | on a 3×1 image with tiles of 2 the two passes give different images |
| Engine.App.Open | src/App.java:16-17 | the application with its first image loaded: the field initialisers give tiles of 10 and the single-threaded strategy; the input is the decoded image and the result a fresh copy of it; no pixel has been written |
| Engine.App.OpenImage | src/App.java:27-36 | loading a further image: the input is the decoded image and the result a fresh copy of it; the tile size and the strategy keep their values; no pixel of the new buffer has been written |
| Engine.App.AddColumn | src/App.java:98-104 | the inner loop adds column i, from row y to the tile's or the image's bottom edge, to the running totals and counts its pixels |
| Engine.App.GetAverageColor | src/App.java:91-112 | returns the floor mean, channel by channel, of the input over the tile at (x, y) clipped to the image; the result is a colour; reads stay in bounds and nothing changes |
| Engine.App.FillTile | src/App.java:190-196 | sets every pixel of the tile to the colour and leaves every other pixel alone; each pixel of the tile is written once |
| Engine.App.ProcessTileRow | src/App.java:224-229 | one row of tiles: every region pixel in the row takes its tile's value, nothing else changes, and each of those pixels is written once |
| Engine.App.ProcessRegion | src/App.java:223-229 | one worker: every pixel of the region takes its tile's average, read over the image-clipped tile; nothing outside the region changes; each region pixel is written once |
| Engine.App.ProcessImageSingleThreaded | src/App.java:176-208 | the result buffer equals `Pixelate` of the input; every pixel is written exactly once; the input is not modified |
| Engine.App.ProcessImageMultiThreaded | src/App.java:210-302 | the result buffer equals `PixelateQuadrants` of the input; every pixel is written exactly once; the input is not modified |
| Engine.App.SelectStrategy | src/App.java:138-139 | the radio buttons set the strategy flag |
| Engine.App.Run | src/App.java:152-161 | stores the tile size and produces the image of the selected strategy; every pixel is written once |

## Left out

- The Swing interface is not modelled: the frame, the buttons, `displayImage` and the
  `invokeLater` repaints.
- File input and output are not modelled: `ImageIO.read` and `ImageIO.write`, the
  missing-file dialog, and `saveResultImage`. `Engine.App.Open` and
  `Engine.App.OpenImage` take the decoded pixels as a parameter and model only the
  successful load.
- Engine.App.Open: models construction together with the first load. Later loads are
  `Engine.App.OpenImage`, which keeps the tile size and the strategy, as `openImage`
  does.
- Engine.App.Open and Engine.App.OpenImage: the result buffer equals the decoded pixels
  only for an opaque input. The copy at src/App.java:34-35 draws the input with the
  default source-over rule onto a zero-filled `TYPE_INT_RGB` buffer, so a translucent
  pixel's channels are blended toward black. Alpha is not modelled, so the model takes
  every input pixel to be opaque.
- Engine.App.ProcessImageMultiThreaded: the four workers run one after another, not on a
  thread pool. Every worker reads only the input buffer and writes only its own
  quadrant, and the quadrants are disjoint (`Tiling.QuadrantsPartition`). So each
  interleaving ends in the same buffer, and that final buffer is what the contract
  states.
- Engine.App.ProcessImageSingleThreaded: the tasks handed to the one-thread executor run
  in submission order, inline. `executor.shutdown()` does not wait for them, so in the
  source the call can return before the picture is finished. Both passes' contracts
  describe the buffer once every task has run.
- The `Thread.sleep` pauses between tiles are not modelled, because they only slow the
  animation and change no pixel.
- Pixels are three channel values in 0..255, not packed ARGB `int`s. The shifts and
  masks of `getRGB` and `new Color(...).getRGB()` are not modelled, and neither is the
  alpha channel; see the `Engine.App.Open` line above for how the first copy treats it.
- Engine.App.GetAverageColor: channel totals and `x + squareSize` are unbounded integers.
  A Java `int` total overflows once a tile holds more than about 8.4 million pixels,
  since 255 × n then exceeds 2^31 − 1.
- Engine.App.ProcessImageMultiThreaded: the contract assumes `x + squareSize` and
  `y + squareSize` do not wrap around as Java `int`s do. That fails for a tile size above
  2^31 − 1 − `width / 2` in the top-right and bottom-right workers, and for one above
  2^31 − 1 − `height / 2` in the two bottom workers. Such a size passes `parseInt` and
  is positive. There, `getAverageColor` at the worker's first tile wraps `x + squareSize`
  or `y + squareSize` to a negative number at src/App.java:97-98, reads no pixel, and
  divides by a `totalPixels` of 0 at src/App.java:107. The resulting
  `ArithmeticException` ends that worker, so its quadrant keeps the loaded pixels,
  not the `PixelateQuadrants` values. The sequential pass only starts its tiles at 0 on
  such a size and is not affected.
- Engine.App.Run: the contract assumes each run finishes before the next one starts.
  In the source, every click creates a new executor (src/App.java:177 and 212), and
  `shutdown` does not wait for it. So a second click can start a second executor on
  the same buffer while tasks of the first are still pending. Those tasks read the
  `squareSize` field when they run (src/App.java:185-186 and 97-98), so they would use
  the new size.
- Engine.App.Run: requires a positive tile size. `Integer.parseInt` and its
  `NumberFormatException` are not modelled. With a size of 0 the source's tile loops
  never end, and with a negative size they run away from the image. Processing before
  any image is loaded, which throws a `NullPointerException` in the source, is excluded
  by `Valid()`.
