/**
 * The pixelation engine of App: the source and result buffers, getAverageColor, and
 * the sequential and quadrant tiling passes, each worker's loop run one after another.
 */
module Engine {
  import opened Raster
  import opened Tiling

  /** The pixels of a buffer as a value, indexed [x][y]. */
  ghost function Pixels(a: array2<Rgb>): (g: Grid)
    reads a
    ensures IsGrid(g, a.Length0, a.Length1)
    ensures forall x, y :: 0 <= x < a.Length0 && 0 <= y < a.Length1 ==> g[x][y] == a[x, y]
  {
    seq(a.Length0, x requires 0 <= x < a.Length0 reads a =>
      seq(a.Length1, y requires 0 <= y < a.Length1 reads a => a[x, y]))
  }

  /** A w-by-h table of write counts, indexed [x][y]. */
  predicate IsCountTable(t: seq<seq<nat>>, w: int, h: int) {
    |t| == w && forall x :: 0 <= x < w ==> |t[x]| == h
  }

  /**
   * Pixel (a, b) of the region lies in the row of tiles with top edge y, left of x:
   * the part of that row a tile loop has written once it reaches the tile at (x, y).
   */
  predicate InBand(region: Rect, s: int, y: int, x: int, a: int, b: int) {
    region.Contains(a, b) && y <= b < y + s && a < x
  }

  /** Writing the tile at (x, y) extends the written part of the row by one tile. */
  lemma InBandStep(region: Rect, s: int, y: int, x: int)
    requires s > 0
    ensures forall a, b :: InBand(region, s, y, x + s, a, b) <==>
      InBand(region, s, y, x, a, b) || (x <= a && Rect(x, y, Min(x + s, region.x1), Min(y + s, region.y1)).Contains(a, b) && region.Contains(a, b))
  {
  }

  class App {
    var inputImage: array2<Rgb>
    var resultImage: array2<Rgb>
    var squareSize: int
    var isMultiThreaded: bool
    /** How many times each pixel of resultImage has been written (setRGB calls). */
    ghost var writes: seq<seq<nat>>

    /**
     * The two buffers are distinct, of one size, and hold colours; `writes` has a
     * counter for every pixel.
     */
    ghost predicate Valid()
      reads this, inputImage, resultImage
    {
      inputImage != resultImage &&
      resultImage.Length0 == inputImage.Length0 &&
      resultImage.Length1 == inputImage.Length1 &&
      IsCountTable(writes, inputImage.Length0, inputImage.Length1) &&
      (forall x, y :: 0 <= x < inputImage.Length0 && 0 <= y < inputImage.Length1 ==>
        IsColor(inputImage[x, y]) && IsColor(resultImage[x, y]))
    }

    /**
     * Loading an image: the decoded pixels become the source, the result buffer starts
     * as a fresh copy of them, and the settings have their initial values: tiles of 10,
     * the single-threaded strategy.
     */
    constructor Open(decoded: array2<Rgb>)
      requires forall x, y :: 0 <= x < decoded.Length0 && 0 <= y < decoded.Length1 ==> IsColor(decoded[x, y])
      ensures Valid()
      ensures inputImage == decoded && fresh(resultImage)
      ensures Pixels(resultImage) == Pixels(decoded)
      ensures squareSize == 10 && !isMultiThreaded
      ensures forall x, y :: 0 <= x < decoded.Length0 && 0 <= y < decoded.Length1 ==> writes[x][y] == 0
    {
      inputImage := decoded;
      resultImage := new Rgb[decoded.Length0, decoded.Length1]((x, y) reads decoded =>
        if 0 <= x < decoded.Length0 && 0 <= y < decoded.Length1 then decoded[x, y] else Black);
      squareSize := 10;
      isMultiThreaded := false;
      writes := seq(decoded.Length0, _ => seq(decoded.Length1, _ => 0));
      new;
      GridExt(Pixels(resultImage), Pixels(decoded), decoded.Length0, decoded.Length1);
    }

    /**
     * Loading a further image: the decoded pixels replace the source and a fresh copy
     * replaces the result buffer, while the tile size and the strategy keep the values
     * the last run and the last radio-button click left.
     */
    method OpenImage(decoded: array2<Rgb>)
      requires forall x, y :: 0 <= x < decoded.Length0 && 0 <= y < decoded.Length1 ==> IsColor(decoded[x, y])
      modifies this
      ensures Valid()
      ensures inputImage == decoded && fresh(resultImage)
      ensures Pixels(resultImage) == Pixels(decoded)
      ensures squareSize == old(squareSize) && isMultiThreaded == old(isMultiThreaded)
      ensures IsCountTable(writes, decoded.Length0, decoded.Length1)
      ensures forall x, y :: 0 <= x < decoded.Length0 && 0 <= y < decoded.Length1 ==> writes[x][y] == 0
    {
      inputImage := decoded;
      resultImage := new Rgb[decoded.Length0, decoded.Length1]((x, y) reads decoded =>
        if 0 <= x < decoded.Length0 && 0 <= y < decoded.Length1 then decoded[x, y] else Black);
      writes := seq(decoded.Length0, _ => seq(decoded.Length1, _ => 0));
      GridExt(Pixels(resultImage), Pixels(decoded), decoded.Length0, decoded.Length1);
    }

    /**
     * The inner loop of getAverageColor: adds the pixels of column i from row y down to
     * y + squareSize, or to the bottom edge if that comes first, to the running totals.
     */
    method AddColumn(i: int, y: int, red: int, green: int, blue: int, pixels: int)
      returns (totalRed: int, totalGreen: int, totalBlue: int, totalPixels: int)
      requires Valid() && squareSize > 0
      requires 0 <= i < inputImage.Length0 && 0 <= y < inputImage.Length1
      ensures Rgb(totalRed, totalGreen, totalBlue) ==
        Add(Rgb(red, green, blue), ColumnSum(Pixels(inputImage), i, y, Min(y + squareSize, inputImage.Length1)))
      ensures totalPixels == pixels + (Min(y + squareSize, inputImage.Length1) - y)
    {
      ghost var img := Pixels(inputImage);
      totalRed, totalGreen, totalBlue, totalPixels := red, green, blue, pixels;
      var j := y;
      while j < y + squareSize && j < inputImage.Length1
        invariant y <= j <= Min(y + squareSize, inputImage.Length1)
        invariant Rgb(totalRed, totalGreen, totalBlue) == Add(Rgb(red, green, blue), ColumnSum(img, i, y, j))
        invariant totalPixels == pixels + (j - y)
      {
        var p := inputImage[i, j];
        assert p == At(img, i, j);
        totalRed := totalRed + p.red;
        totalGreen := totalGreen + p.green;
        totalBlue := totalBlue + p.blue;
        totalPixels := totalPixels + 1;
        j := j + 1;
      }
    }

    /**
     * getAverageColor(x, y): the floor mean of each channel over the tile of side
     * squareSize at (x, y), clipped to the image. Reads only inputImage.
     */
    method GetAverageColor(x: int, y: int) returns (avg: Rgb)
      requires Valid() && squareSize > 0
      requires 0 <= x < inputImage.Length0 && 0 <= y < inputImage.Length1
      ensures avg == Average(Pixels(inputImage), ReadRect(x, y, squareSize, inputImage.Length0, inputImage.Length1))
      ensures IsColor(avg)
    {
      ghost var img := Pixels(inputImage);
      ghost var r := ReadRect(x, y, squareSize, inputImage.Length0, inputImage.Length1);
      var totalRed, totalGreen, totalBlue, totalPixels := 0, 0, 0, 0;
      var i := x;
      while i < x + squareSize && i < inputImage.Length0
        invariant x <= i <= r.x1
        invariant Rgb(totalRed, totalGreen, totalBlue) == ColumnsSum(img, x, i, y, r.y1)
        invariant totalPixels == Count(x, i, r.y1 - y)
      {
        totalRed, totalGreen, totalBlue, totalPixels := AddColumn(i, y, totalRed, totalGreen, totalBlue, totalPixels);
        i := i + 1;
      }
      AverageOfTotals(img, r, Rgb(totalRed, totalGreen, totalBlue), totalPixels);
      avg := Rgb(totalRed / totalPixels, totalGreen / totalPixels, totalBlue / totalPixels);
      AverageIsColor(img, r);
    }

    /** Writes colour c into every pixel of the tile, and nowhere else. */
    method FillTile(tile: Rect, c: Rgb)
      requires Valid() && IsColor(c)
      requires tile.Within(inputImage.Length0, inputImage.Length1)
      modifies resultImage, this`writes
      ensures Valid()
      ensures forall x, y :: 0 <= x < resultImage.Length0 && 0 <= y < resultImage.Length1 ==>
        resultImage[x, y] == (if tile.Contains(x, y) then c else old(resultImage[x, y]))
      ensures forall x, y :: 0 <= x < resultImage.Length0 && 0 <= y < resultImage.Length1 ==>
        writes[x][y] == old(writes)[x][y] + (if tile.Contains(x, y) then 1 else 0)
    {
      var i := tile.x0;
      while i < tile.x1
        invariant tile.x0 <= i <= tile.x1
        invariant IsCountTable(writes, resultImage.Length0, resultImage.Length1)
        invariant forall x, y :: 0 <= x < resultImage.Length0 && 0 <= y < resultImage.Length1 ==>
          resultImage[x, y] == (if tile.Contains(x, y) && x < i then c else old(resultImage[x, y]))
        invariant forall x, y :: 0 <= x < resultImage.Length0 && 0 <= y < resultImage.Length1 ==>
          writes[x][y] == old(writes)[x][y] + (if tile.Contains(x, y) && x < i then 1 else 0)
      {
        var j := tile.y0;
        while j < tile.y1
          invariant tile.y0 <= j <= tile.y1
          invariant IsCountTable(writes, resultImage.Length0, resultImage.Length1)
          invariant forall x, y :: 0 <= x < resultImage.Length0 && 0 <= y < resultImage.Length1 ==>
            resultImage[x, y] == (if tile.Contains(x, y) && (x < i || (x == i && y < j)) then c else old(resultImage[x, y]))
          invariant forall x, y :: 0 <= x < resultImage.Length0 && 0 <= y < resultImage.Length1 ==>
            writes[x][y] == old(writes)[x][y] + (if tile.Contains(x, y) && (x < i || (x == i && y < j)) then 1 else 0)
        {
          resultImage[i, j] := c;
          writes := writes[i := writes[i][j := writes[i][j] + 1]];
          j := j + 1;
        }
        i := i + 1;
      }
    }

    /**
     * One pass of a worker's inner loop: the row of tiles whose top edge is y, from the
     * region's left edge in steps of squareSize. Each tile is averaged over its
     * image-clipped rectangle and written over its region-clipped rectangle.
     */
    method ProcessTileRow(region: Rect, y: int, ghost ky: int)
      requires Valid() && squareSize > 0
      requires region.Within(inputImage.Length0, inputImage.Length1)
      requires 0 <= ky && y == region.y0 + ky * squareSize && region.y0 <= y < region.y1
      modifies resultImage, this`writes
      ensures Valid()
      ensures forall a, b :: 0 <= a < resultImage.Length0 && 0 <= b < resultImage.Length1 ==>
        resultImage[a, b] == (if InBand(region, squareSize, y, region.x1, a, b)
          then TileValue(Pixels(inputImage), inputImage.Length0, inputImage.Length1, squareSize, region, a, b)
          else old(resultImage[a, b]))
      ensures forall a, b :: 0 <= a < resultImage.Length0 && 0 <= b < resultImage.Length1 ==>
        writes[a][b] == old(writes)[a][b] + (if InBand(region, squareSize, y, region.x1, a, b) then 1 else 0)
    {
      ghost var img, before, counts := Pixels(inputImage), Pixels(resultImage), writes;
      var w, h, s := inputImage.Length0, inputImage.Length1, squareSize;
      var x := region.x0;
      ghost var kx := 0;
      while x < region.x1
        invariant Valid() && Pixels(inputImage) == img
        invariant 0 <= kx && x == region.x0 + kx * s
        invariant forall a, b :: 0 <= a < w && 0 <= b < h ==>
          resultImage[a, b] == (if InBand(region, s, y, x, a, b) then TileValue(img, w, h, s, region, a, b) else before[a][b])
        invariant forall a, b :: 0 <= a < w && 0 <= b < h ==>
          writes[a][b] == counts[a][b] + (if InBand(region, s, y, x, a, b) then 1 else 0)
      {
        var avg := GetAverageColor(x, y);
        TileValueOnCell(img, w, h, s, region, x, y, kx, ky);
        InBandStep(region, s, y, x);
        FillTile(Rect(x, y, Min(x + s, region.x1), Min(y + s, region.y1)), avg);
        MulSucc(kx, s);
        x := x + s;
        kx := kx + 1;
      }
    }

    /**
     * One worker's tile loop over `region`: rows of tiles from the region's top edge in
     * steps of squareSize. Every pixel of the region is written once, with the value of
     * its tile; nothing outside the region is touched.
     */
    method ProcessRegion(region: Rect)
      requires Valid() && squareSize > 0
      requires region.Within(inputImage.Length0, inputImage.Length1)
      modifies resultImage, this`writes
      ensures Valid()
      ensures forall x, y :: 0 <= x < resultImage.Length0 && 0 <= y < resultImage.Length1 ==>
        resultImage[x, y] == (if region.Contains(x, y)
          then TileValue(Pixels(inputImage), inputImage.Length0, inputImage.Length1, squareSize, region, x, y)
          else old(resultImage[x, y]))
      ensures forall x, y :: 0 <= x < resultImage.Length0 && 0 <= y < resultImage.Length1 ==>
        writes[x][y] == old(writes)[x][y] + (if region.Contains(x, y) then 1 else 0)
    {
      ghost var img, before, counts := Pixels(inputImage), Pixels(resultImage), writes;
      var w, h, s := inputImage.Length0, inputImage.Length1, squareSize;
      var y := region.y0;
      ghost var ky := 0;
      while y < region.y1
        invariant Valid() && Pixels(inputImage) == img
        invariant 0 <= ky && y == region.y0 + ky * s
        invariant forall a, b :: 0 <= a < w && 0 <= b < h ==>
          resultImage[a, b] == (if region.Contains(a, b) && b < y then TileValue(img, w, h, s, region, a, b) else before[a][b])
        invariant forall a, b :: 0 <= a < w && 0 <= b < h ==>
          writes[a][b] == counts[a][b] + (if region.Contains(a, b) && b < y then 1 else 0)
      {
        ProcessTileRow(region, y, ky);
        MulSucc(ky, s);
        y := y + s;
        ky := ky + 1;
      }
    }

    /**
     * The single-threaded pass: one grid from (0, 0) over the whole image. Every
     * pixel is written exactly once, with the average of its grid tile.
     */
    method ProcessImageSingleThreaded()
      requires Valid() && squareSize > 0
      modifies resultImage, this`writes
      ensures Valid() && unchanged(inputImage)
      ensures Pixels(resultImage) == Pixelate(Pixels(inputImage), inputImage.Length0, inputImage.Length1, squareSize)
      ensures forall x, y :: 0 <= x < inputImage.Length0 && 0 <= y < inputImage.Length1 ==>
        writes[x][y] == old(writes)[x][y] + 1
    {
      var w, h := inputImage.Length0, inputImage.Length1;
      ProcessRegion(Whole(w, h));
      ghost var img := Pixels(inputImage);
      forall x, y | 0 <= x < w && 0 <= y < h
        ensures Pixels(resultImage)[x][y] == Pixelate(img, w, h, squareSize)[x][y]
      {
        PixelateAt(img, w, h, squareSize, x, y);
      }
      GridExt(Pixels(resultImage), Pixelate(img, w, h, squareSize), w, h);
    }

    /**
     * The multi-threaded pass: four workers, one per quadrant, each with its own grid
     * from the quadrant's corner. The quadrants are disjoint, so running them one after
     * another gives what the concurrent workers give, and every pixel is written once.
     */
    method ProcessImageMultiThreaded()
      requires Valid() && squareSize > 0
      modifies resultImage, this`writes
      ensures Valid() && unchanged(inputImage)
      ensures Pixels(resultImage) == PixelateQuadrants(Pixels(inputImage), inputImage.Length0, inputImage.Length1, squareSize)
      ensures forall x, y :: 0 <= x < inputImage.Length0 && 0 <= y < inputImage.Length1 ==>
        writes[x][y] == old(writes)[x][y] + 1
    {
      var w, h := inputImage.Length0, inputImage.Length1;
      var quarterWidth, quarterHeight := w / 2, h / 2;
      ghost var img := Pixels(inputImage);
      ghost var quads := Quadrants(w, h);
      QuadrantsPartition(w, h);
      ProcessRegion(Rect(0, 0, quarterWidth, quarterHeight));
      ProcessRegion(Rect(quarterWidth, 0, w, quarterHeight));
      ProcessRegion(Rect(0, quarterHeight, quarterWidth, h));
      ProcessRegion(Rect(quarterWidth, quarterHeight, w, h));
      forall x, y | 0 <= x < w && 0 <= y < h
        ensures Pixels(resultImage)[x][y] == PixelateQuadrants(img, w, h, squareSize)[x][y]
      {
        PixelateQuadrantsAt(img, w, h, squareSize, x, y);
      }
      GridExt(Pixels(resultImage), PixelateQuadrants(img, w, h, squareSize), w, h);
    }

    /** The strategy radio buttons: select the single- or the multi-threaded pass. */
    method SelectStrategy(multiThreaded: bool)
      modifies this`isMultiThreaded
      ensures isMultiThreaded == multiThreaded
    {
      isMultiThreaded := multiThreaded;
    }

    /**
     * The "Process Image" action: store the parsed tile size and run the pass the
     * selected strategy names.
     */
    method Run(size: int)
      requires Valid() && size > 0
      modifies this`squareSize, resultImage, this`writes
      ensures Valid() && unchanged(inputImage) && squareSize == size
      ensures Pixels(resultImage) == (if isMultiThreaded
        then PixelateQuadrants(Pixels(inputImage), inputImage.Length0, inputImage.Length1, size)
        else Pixelate(Pixels(inputImage), inputImage.Length0, inputImage.Length1, size))
      ensures forall x, y :: 0 <= x < inputImage.Length0 && 0 <= y < inputImage.Length1 ==>
        writes[x][y] == old(writes)[x][y] + 1
    {
      squareSize := size;
      if isMultiThreaded {
        ProcessImageMultiThreaded();
      } else {
        ProcessImageSingleThreaded();
      }
    }
  }
}
