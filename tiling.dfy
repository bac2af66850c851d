/**
 * The tile grid of the pixelation filter, the four quadrants of the parallel pass,
 * and the images the sequential and quadrant passes produce, stated as values.
 */
module Tiling {
  import opened Raster

  /** Start of the stride-s grid cell, counted from origin o, that holds coordinate i. */
  function CellStart(i: int, o: int, s: int): (c: int)
    requires s > 0 && o <= i
    ensures o <= c <= i < c + s
    ensures (c - o) % s == 0
  {
    assert i - o == (i - o) / s * s + (i - o) % s;
    GridPointMod((i - o) / s, s);
    o + (i - o) / s * s
  }

  /** A multiple of the stride leaves no remainder. */
  lemma GridPointMod(k: int, s: int)
    requires s > 0
    ensures (k * s) % s == 0
  {
    var q, r := (k * s) / s, (k * s) % s;
    assert k * s == q * s + r && 0 <= r < s;
    assert (k - q) * s == r;
    if k - q >= 1 {
      MulLe(1, k - q, s);
    } else if k - q <= -1 {
      MulLe(k - q, -1, s);
    }
  }

  /**
   * Grid cells of stride s from origin o do not overlap: the k-th cell
   * [o + k*s, o + k*s + s) is the one cell CellStart picks for each of its points.
   */
  lemma CellStartUnique(i: int, o: int, s: int, k: int)
    requires s > 0 && 0 <= k && o + k * s <= i < o + k * s + s
    ensures CellStart(i, o, s) == o + k * s
  {
    var q := (i - o) / s;
    assert i - o == q * s + (i - o) % s;
    if q < k {
      MulLe(q + 1, k, s);
      assert false;
    }
    if q > k {
      MulLe(k + 1, q, s);
      assert false;
    }
  }

  /** Every point of a cell lies in a cell that starts at a grid point, and grid points start their own cell. */
  lemma CellStartIsGridPoint(i: int, o: int, s: int)
    requires s > 0 && o <= i
    ensures exists k :: 0 <= k && CellStart(i, o, s) == o + k * s
    ensures CellStart(CellStart(i, o, s), o, s) == CellStart(i, o, s)
  {
    var k := (i - o) / s;
    assert CellStart(i, o, s) == o + k * s;
    CellStartUnique(CellStart(i, o, s), o, s, k);
  }

  /** A grid whose origin is itself a multiple of s has the same cells as the grid from 0. */
  lemma CellStartShift(i: int, o: int, s: int)
    requires s > 0 && 0 <= o <= i && o % s == 0
    ensures CellStart(i, o, s) == CellStart(i, 0, s)
  {
    var m := o / s;
    assert o == m * s;
    var c := CellStart(i, 0, s);
    var q := i / s;
    assert c == q * s;
    if q < m {
      MulLe(q + 1, m, s);
      assert false;
    }
    assert c == o + (q - m) * s;
    CellStartUnique(i, o, s, q - m);
  }

  /**
   * The rectangle getAverageColor(x, y) reads: [x, min(x+s, w)) x [y, min(y+s, h)),
   * which stays inside the image and holds at least one pixel.
   */
  function ReadRect(x: int, y: int, s: int, w: int, h: int): (r: Rect)
    requires s > 0 && 0 <= x < w && 0 <= y < h
    ensures r.Within(w, h) && r.NonEmpty()
    ensures r.x0 == x && r.y0 == y
    ensures r.x1 - r.x0 <= s && r.y1 - r.y0 <= s
    ensures r.x1 == w || r.x1 == x + s
    ensures r.y1 == h || r.y1 == y + s
  {
    Rect(x, y, Min(x + s, w), Min(y + s, h))
  }

  /**
   * The value a tile loop over `region` leaves at pixel (i, j): the average of the
   * image-clipped rectangle read from the origin of the region's grid cell holding (i, j).
   */
  function TileValue(g: Grid, w: int, h: int, s: int, region: Rect, i: int, j: int): Rgb
    requires IsGrid(g, w, h) && s > 0 && region.Within(w, h) && region.Contains(i, j)
  {
    Average(g, ReadRect(CellStart(i, region.x0, s), CellStart(j, region.y0, s), s, w, h))
  }

  /**
   * The cell of a region's grid at (x, y), clipped to the region: every pixel in it
   * takes the average of the one rectangle read from (x, y).
   */
  lemma TileValueOnCell(g: Grid, w: int, h: int, s: int, region: Rect, x: int, y: int, kx: int, ky: int)
    requires IsGrid(g, w, h) && s > 0 && region.Within(w, h)
    requires 0 <= kx && 0 <= ky && x == region.x0 + kx * s && y == region.y0 + ky * s
    requires region.Contains(x, y)
    ensures forall a, b :: Rect(x, y, Min(x + s, region.x1), Min(y + s, region.y1)).Contains(a, b) ==>
      region.Contains(a, b) && TileValue(g, w, h, s, region, a, b) == Average(g, ReadRect(x, y, s, w, h))
  {
    forall a, b | Rect(x, y, Min(x + s, region.x1), Min(y + s, region.y1)).Contains(a, b)
      ensures region.Contains(a, b) && TileValue(g, w, h, s, region, a, b) == Average(g, ReadRect(x, y, s, w, h))
    {
      CellStartUnique(a, region.x0, s, kx);
      CellStartUnique(b, region.y0, s, ky);
    }
  }

  function Whole(w: int, h: int): Rect {
    Rect(0, 0, w, h)
  }

  /** The image the sequential pass produces: one grid from (0, 0) over the whole image. */
  function Pixelate(g: Grid, w: int, h: int, s: int): (r: Grid)
    requires IsGrid(g, w, h) && s > 0
    ensures IsGrid(r, w, h)
  {
    seq(w, i requires 0 <= i < w =>
      seq(h, j requires 0 <= j < h => TileValue(g, w, h, s, Whole(w, h), i, j)))
  }

  lemma PixelateAt(g: Grid, w: int, h: int, s: int, i: int, j: int)
    requires IsGrid(g, w, h) && s > 0 && 0 <= i < w && 0 <= j < h
    ensures Pixelate(g, w, h, s)[i][j] == TileValue(g, w, h, s, Whole(w, h), i, j)
  {
  }

  /** Top-left, top-right, bottom-left and bottom-right, split at w/2 and h/2. */
  function Quadrants(w: int, h: int): seq<Rect> {
    var qw, qh := w / 2, h / 2;
    [Rect(0, 0, qw, qh), Rect(qw, 0, w, qh), Rect(0, qh, qw, h), Rect(qw, qh, w, h)]
  }

  /** The quadrant whose worker writes pixel (i, j). */
  function QuadrantOf(w: int, h: int, i: int, j: int): (q: Rect)
    requires 0 <= i < w && 0 <= j < h
    ensures q in Quadrants(w, h) && q.Within(w, h) && q.Contains(i, j)
  {
    var quads := Quadrants(w, h);
    if j < h / 2 then (if i < w / 2 then quads[0] else quads[1])
    else (if i < w / 2 then quads[2] else quads[3])
  }

  /** The image the quadrant pass produces: each quadrant runs its own grid from its own corner. */
  function PixelateQuadrants(g: Grid, w: int, h: int, s: int): (r: Grid)
    requires IsGrid(g, w, h) && s > 0
    ensures IsGrid(r, w, h)
  {
    seq(w, i requires 0 <= i < w =>
      seq(h, j requires 0 <= j < h => TileValue(g, w, h, s, QuadrantOf(w, h, i, j), i, j)))
  }

  lemma PixelateQuadrantsAt(g: Grid, w: int, h: int, s: int, i: int, j: int)
    requires IsGrid(g, w, h) && s > 0 && 0 <= i < w && 0 <= j < h
    ensures PixelateQuadrants(g, w, h, s)[i][j] == TileValue(g, w, h, s, QuadrantOf(w, h, i, j), i, j)
  {
  }

  /**
   * The four quadrants lie in the image, are pairwise disjoint and cover it; the right
   * and bottom ones take the odd column and row.
   */
  lemma QuadrantsPartition(w: int, h: int)
    requires 0 <= w && 0 <= h
    ensures |Quadrants(w, h)| == 4
    ensures forall k :: 0 <= k < 4 ==> Quadrants(w, h)[k].Within(w, h)
    ensures forall k, l, x, y :: 0 <= k < l < 4 && Quadrants(w, h)[k].Contains(x, y) ==>
      !Quadrants(w, h)[l].Contains(x, y)
    ensures forall x, y :: 0 <= x < w && 0 <= y < h ==>
      Quadrants(w, h)[0].Contains(x, y) || Quadrants(w, h)[1].Contains(x, y) ||
      Quadrants(w, h)[2].Contains(x, y) || Quadrants(w, h)[3].Contains(x, y)
    ensures Quadrants(w, h)[1].x1 - Quadrants(w, h)[1].x0 == Quadrants(w, h)[0].x1 - Quadrants(w, h)[0].x0 + w % 2
    ensures Quadrants(w, h)[2].y1 - Quadrants(w, h)[2].y0 == Quadrants(w, h)[0].y1 - Quadrants(w, h)[0].y0 + h % 2
  {
  }

  /** Every pixel of a pixelated image carries a colour. */
  lemma PixelateIsImage(g: Grid, w: int, h: int, s: int)
    requires IsImage(g, w, h) && s > 0
    ensures IsImage(Pixelate(g, w, h, s), w, h)
    ensures IsImage(PixelateQuadrants(g, w, h, s), w, h)
  {
    forall i, j | 0 <= i < w && 0 <= j < h
      ensures IsColor(Pixelate(g, w, h, s)[i][j]) && IsColor(PixelateQuadrants(g, w, h, s)[i][j])
    {
      var whole := Whole(w, h);
      AverageIsColor(g, ReadRect(CellStart(i, 0, s), CellStart(j, 0, s), s, w, h));
      var q := QuadrantOf(w, h, i, j);
      AverageIsColor(g, ReadRect(CellStart(i, q.x0, s), CellStart(j, q.y0, s), s, w, h));
    }
  }

  /** Each pixel equals the pixel at the origin of its s-by-s grid tile. */
  ghost predicate TileUniform(g: Grid, w: int, h: int, s: int)
    requires IsGrid(g, w, h) && s > 0
  {
    forall i, j :: 0 <= i < w && 0 <= j < h ==> g[i][j] == g[CellStart(i, 0, s)][CellStart(j, 0, s)]
  }

  /** The sequential pass makes every grid tile one colour. */
  lemma PixelateIsTileUniform(g: Grid, w: int, h: int, s: int)
    requires IsGrid(g, w, h) && s > 0
    ensures TileUniform(Pixelate(g, w, h, s), w, h, s)
  {
    var p := Pixelate(g, w, h, s);
    forall i, j | 0 <= i < w && 0 <= j < h
      ensures p[i][j] == p[CellStart(i, 0, s)][CellStart(j, 0, s)]
    {
      CellStartIsGridPoint(i, 0, s);
      CellStartIsGridPoint(j, 0, s);
    }
  }

  /** On a tile-uniform image, each pixel's tile averages to the pixel itself. */
  lemma TileValueOfUniform(g: Grid, w: int, h: int, s: int, i: int, j: int)
    requires IsGrid(g, w, h) && s > 0 && TileUniform(g, w, h, s)
    requires 0 <= i < w && 0 <= j < h
    ensures TileValue(g, w, h, s, Whole(w, h), i, j) == g[i][j]
  {
    var a, b := CellStart(i, 0, s), CellStart(j, 0, s);
    var r := ReadRect(a, b, s, w, h);
    var ka, kb := i / s, j / s;
    assert a == ka * s && b == kb * s;
    forall x, y | r.Contains(x, y)
      ensures g[x][y] == g[a][b]
    {
      CellStartUnique(x, 0, s, ka);
      CellStartUnique(y, 0, s, kb);
    }
    AverageOfUniform(g, r, g[a][b]);
  }

  /** On an image that is already one colour per grid tile the sequential pass changes nothing. */
  lemma PixelateFixesTileUniform(g: Grid, w: int, h: int, s: int)
    requires IsGrid(g, w, h) && s > 0 && TileUniform(g, w, h, s)
    ensures Pixelate(g, w, h, s) == g
  {
    var p := Pixelate(g, w, h, s);
    forall i, j | 0 <= i < w && 0 <= j < h
      ensures p[i][j] == g[i][j]
    {
      PixelateAt(g, w, h, s, i, j);
      TileValueOfUniform(g, w, h, s, i, j);
    }
    GridExt(p, g, w, h);
  }

  /** Pixelating twice with the same tile size is the same as pixelating once. */
  lemma PixelateIdempotent(g: Grid, w: int, h: int, s: int)
    requires IsGrid(g, w, h) && s > 0
    ensures Pixelate(Pixelate(g, w, h, s), w, h, s) == Pixelate(g, w, h, s)
  {
    PixelateIsTileUniform(g, w, h, s);
    PixelateFixesTileUniform(Pixelate(g, w, h, s), w, h, s);
  }

  /**
   * When s divides both w/2 and h/2 every quadrant grid lines up with the grid from
   * (0, 0), so the two passes produce the same image.
   */
  lemma QuadrantsAgreeWhenAligned(g: Grid, w: int, h: int, s: int)
    requires IsGrid(g, w, h) && s > 0
    requires (w / 2) % s == 0 && (h / 2) % s == 0
    ensures PixelateQuadrants(g, w, h, s) == Pixelate(g, w, h, s)
  {
    var pq, p := PixelateQuadrants(g, w, h, s), Pixelate(g, w, h, s);
    forall i, j | 0 <= i < w && 0 <= j < h
      ensures pq[i][j] == p[i][j]
    {
      var q := QuadrantOf(w, h, i, j);
      assert q.x0 == 0 || q.x0 == w / 2;
      assert q.y0 == 0 || q.y0 == h / 2;
      CellStartShift(i, q.x0, s);
      CellStartShift(j, q.y0, s);
    }
    GridExt(pq, p, w, h);
  }

  /**
   * A pixel in the first tile of a region's grid takes the average read from the
   * region's corner.
   */
  lemma TileValueAtCorner(g: Grid, w: int, h: int, s: int, region: Rect, i: int, j: int, c: Rgb)
    requires IsGrid(g, w, h) && s > 0 && region.Within(w, h) && region.Contains(i, j)
    requires i < region.x0 + s && j < region.y0 + s
    requires Average(g, ReadRect(region.x0, region.y0, s, w, h)) == c
    ensures TileValue(g, w, h, s, region, i, j) == c
  {
    CellStartUnique(i, region.x0, s, 0);
    CellStartUnique(j, region.y0, s, 0);
  }

  /** With tiles of 2 on a one-row image, two black pixels at the left make the first tile black. */
  lemma ExampleLeftTile(g: Grid, w: int, h: int, s: int)
    requires IsGrid(g, w, h) && s == 2 && w > 2 && h == 1
    requires g[0][0] == Black && g[1][0] == Black
    ensures Average(g, ReadRect(0, 0, s, w, h)) == Black
  {
    AverageOfUniformPair(g, ReadRect(0, 0, s, w, h), 0);
  }

  /** On a 3x1 image, a black pixel before a grey 254 one makes the tile read from column 1 grey 127. */
  lemma ExampleRightTile(g: Grid, w: int, h: int, s: int)
    requires IsGrid(g, w, h) && s == 2 && w == 3 && h == 1
    requires g[1][0] == Black && g[2][0] == Rgb(254, 254, 254)
    ensures 1 < QuadrantOf(w, h, 1, 0).x0 + s && 0 < QuadrantOf(w, h, 1, 0).y0 + s
    ensures Average(g, ReadRect(QuadrantOf(w, h, 1, 0).x0, QuadrantOf(w, h, 1, 0).y0, s, w, h)) == Rgb(127, 127, 127)
  {
    var q := QuadrantOf(w, h, 1, 0);
    assert q.x0 == 1 && q.y0 == 0;
    AverageOfUniformPair(g, ReadRect(1, 0, s, w, h), 254);
    assert 254 / 2 == 127;
  }

  /** The sequential pass paints pixel (1, 0) with the average of columns 0 and 1. */
  lemma ExampleSequential(g: Grid, w: int, h: int, s: int)
    requires IsGrid(g, w, h) && s == 2 && w > 2 && h == 1
    requires g[0][0] == Black && g[1][0] == Black
    ensures Pixelate(g, w, h, s)[1][0] == Black
  {
    ExampleLeftTile(g, w, h, s);
    TileValueAtCorner(g, w, h, s, Whole(w, h), 1, 0, Black);
    PixelateAt(g, w, h, s, 1, 0);
  }

  /** A pixel in the first tile of its quadrant takes the average read from the quadrant's corner. */
  lemma PixelateQuadrantsAtCorner(g: Grid, w: int, h: int, s: int, i: int, j: int, c: Rgb)
    requires IsGrid(g, w, h) && s > 0 && 0 <= i < w && 0 <= j < h
    requires i < QuadrantOf(w, h, i, j).x0 + s && j < QuadrantOf(w, h, i, j).y0 + s
    requires Average(g, ReadRect(QuadrantOf(w, h, i, j).x0, QuadrantOf(w, h, i, j).y0, s, w, h)) == c
    ensures PixelateQuadrants(g, w, h, s)[i][j] == c
  {
    TileValueAtCorner(g, w, h, s, QuadrantOf(w, h, i, j), i, j, c);
    PixelateQuadrantsAt(g, w, h, s, i, j);
  }

  /** The quadrant pass paints pixel (1, 0) with the average of columns 1 and 2. */
  lemma ExampleQuadrants(g: Grid, w: int, h: int, s: int)
    requires IsGrid(g, w, h) && s == 2 && w == 3 && h == 1
    requires g[1][0] == Black && g[2][0] == Rgb(254, 254, 254)
    ensures PixelateQuadrants(g, w, h, s)[1][0] == Rgb(127, 127, 127)
  {
    ExampleRightTile(g, w, h, s);
    PixelateQuadrantsAtCorner(g, w, h, s, 1, 0, Rgb(127, 127, 127));
  }

  /**
   * Without that alignment the passes differ: on a 3x1 image with tiles of 2, the
   * sequential pass averages columns 0-1 into column 1, the quadrant pass columns 1-2.
   */
  lemma QuadrantsDisagreeExample(g: Grid, w: int, h: int, s: int)
    requires w == 3 && h == 1 && s == 2 && IsGrid(g, w, h)
    requires g[0][0] == Black && g[1][0] == Black && g[2][0] == Rgb(254, 254, 254)
    ensures Pixelate(g, w, h, s)[1][0] == Black
    ensures PixelateQuadrants(g, w, h, s)[1][0] == Rgb(127, 127, 127)
    ensures Pixelate(g, w, h, s) != PixelateQuadrants(g, w, h, s)
  {
    ExampleSequential(g, w, h, s);
    ExampleQuadrants(g, w, h, s);
  }
}
