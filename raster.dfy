/** Pixels, rectangles and the per-channel average of a rectangle of pixels. */
module Raster {

  /** A pixel as the three 8-bit channels that getRGB unpacks with shifts and masks. */
  datatype Rgb = Rgb(red: int, green: int, blue: int)

  const Black := Rgb(0, 0, 0)
  const White := Rgb(255, 255, 255)

  /** Every channel is an 8-bit value, as `& 0xFF` guarantees and `new Color(r, g, b)` demands. */
  predicate IsColor(p: Rgb) {
    0 <= p.red <= 255 && 0 <= p.green <= 255 && 0 <= p.blue <= 255
  }

  /** Channel by channel, lo <= p <= hi. */
  predicate Between(lo: Rgb, p: Rgb, hi: Rgb) {
    lo.red <= p.red <= hi.red && lo.green <= p.green <= hi.green && lo.blue <= p.blue <= hi.blue
  }

  function Add(p: Rgb, q: Rgb): Rgb {
    Rgb(p.red + q.red, p.green + q.green, p.blue + q.blue)
  }

  function Scale(p: Rgb, n: int): Rgb {
    Rgb(p.red * n, p.green * n, p.blue * n)
  }

  function Min(a: int, b: int): int {
    if a < b then a else b
  }

  /** A raster stored column by column, g[x][y], the order of getRGB(x, y). */
  type Grid = seq<seq<Rgb>>

  /** g is w pixels wide and h pixels high. */
  predicate IsGrid(g: Grid, w: int, h: int) {
    |g| == w && 0 <= h && forall x :: 0 <= x < w ==> |g[x]| == h
  }

  predicate IsImage(g: Grid, w: int, h: int) {
    IsGrid(g, w, h) && forall x, y :: 0 <= x < w && 0 <= y < h ==> IsColor(g[x][y])
  }

  lemma GridExt(a: Grid, b: Grid, w: int, h: int)
    requires IsGrid(a, w, h) && IsGrid(b, w, h)
    requires forall x, y :: 0 <= x < w && 0 <= y < h ==> a[x][y] == b[x][y]
    ensures a == b
  {
    forall x | 0 <= x < w
      ensures a[x] == b[x]
    {
      assert forall y :: 0 <= y < h ==> a[x][y] == b[x][y];
    }
  }

  /** The half-open rectangle [x0, x1) x [y0, y1). */
  datatype Rect = Rect(x0: int, y0: int, x1: int, y1: int) {
    predicate Contains(x: int, y: int) {
      x0 <= x < x1 && y0 <= y < y1
    }
    predicate Within(w: int, h: int) {
      0 <= x0 <= x1 <= w && 0 <= y0 <= y1 <= h
    }
    predicate NonEmpty() {
      x0 < x1 && y0 < y1
    }
    function Area(): int {
      (x1 - x0) * (y1 - y0)
    }
  }

  /** The rectangle lies inside g, so every pixel it names can be read. */
  predicate Fits(g: Grid, r: Rect) {
    0 <= r.x0 <= r.x1 <= |g| && 0 <= r.y0 <= r.y1 &&
    forall x :: r.x0 <= x < r.x1 ==> r.y1 <= |g[x]|
  }

  /** The pixel at (x, y), or black where g has no pixel; the sums below read through it. */
  function At(g: Grid, x: int, y: int): Rgb {
    if 0 <= x < |g| && 0 <= y < |g[x]| then g[x][y] else Black
  }

  /** Channel sums of the pixels (x, y0) .. (x, y1 - 1). */
  function ColumnSum(g: Grid, x: int, y0: int, y1: int): Rgb
    requires y0 <= y1
    decreases y1 - y0
  {
    if y1 == y0 then Black else Add(ColumnSum(g, x, y0, y1 - 1), At(g, x, y1 - 1))
  }

  /** Channel sums over columns x0 .. x1 - 1 of rows y0 .. y1 - 1, column by column from the left. */
  function ColumnsSum(g: Grid, x0: int, x1: int, y0: int, y1: int): Rgb
    requires x0 <= x1 && y0 <= y1
    decreases x1 - x0
  {
    if x1 == x0 then Black else Add(ColumnsSum(g, x0, x1 - 1, y0, y1), ColumnSum(g, x1 - 1, y0, y1))
  }

  /** Channel sums over the rectangle. */
  function RectSum(g: Grid, r: Rect): Rgb
    requires r.x0 <= r.x1 && r.y0 <= r.y1
  {
    ColumnsSum(g, r.x0, r.x1, r.y0, r.y1)
  }

  /** The number of pixels in columns x0 .. x1 - 1 of a band h rows high, counted a column at a time. */
  function Count(x0: int, x1: int, h: int): int
    requires x0 <= x1
    decreases x1 - x0
  {
    if x1 == x0 then 0 else Count(x0, x1 - 1, h) + h
  }

  lemma {:induction false} CountIsArea(x0: int, x1: int, h: int)
    requires x0 <= x1
    ensures Count(x0, x1, h) == (x1 - x0) * h
    decreases x1 - x0
  {
    if x1 > x0 {
      CountIsArea(x0, x1 - 1, h);
      MulSucc(x1 - 1 - x0, h);
    }
  }

  /**
   * The floor of each channel's mean over a non-empty rectangle. Channel sums of
   * colours are never negative, so Dafny's division agrees with Java's here.
   */
  function Average(g: Grid, r: Rect): Rgb
    requires Fits(g, r) && r.NonEmpty()
  {
    AreaPositive(r);
    var t := RectSum(g, r);
    var n := r.Area();
    Rgb(t.red / n, t.green / n, t.blue / n)
  }

  /** Channel totals and a pixel count gathered over a non-empty rectangle give its average. */
  lemma AverageOfTotals(g: Grid, r: Rect, t: Rgb, n: int)
    requires Fits(g, r) && r.NonEmpty()
    requires t == RectSum(g, r) && n == Count(r.x0, r.x1, r.y1 - r.y0)
    ensures n > 0 && Rgb(t.red / n, t.green / n, t.blue / n) == Average(g, r)
  {
    CountIsArea(r.x0, r.x1, r.y1 - r.y0);
    AreaPositive(r);
  }

  lemma AreaPositive(r: Rect)
    requires r.NonEmpty()
    ensures r.Area() > 0
  {
    MulPositive(r.x1 - r.x0, r.y1 - r.y0);
  }

  lemma MulPositive(a: int, b: int)
    requires a > 0 && b > 0
    ensures a * b > 0
  {
  }

  lemma MulLe(a: int, b: int, n: int)
    requires a <= b && 0 <= n
    ensures a * n <= b * n
  {
  }

  lemma MulSucc(k: int, n: int)
    ensures (k + 1) * n == k * n + n
  {
  }

  /** If t lies between lo*n and hi*n then its floor quotient by n lies between lo and hi. */
  lemma DivBetween(t: int, n: int, lo: int, hi: int)
    requires n > 0 && lo * n <= t <= hi * n
    ensures lo <= t / n <= hi
  {
    var q := t / n;
    assert t == q * n + t % n && 0 <= t % n < n;
    if q < lo {
      MulLe(q + 1, lo, n);
      assert false;
    }
    if q > hi {
      MulLe(hi + 1, q, n);
      assert false;
    }
  }

  lemma ScaleAdd(p: Rgb, m: int, n: int)
    ensures Scale(p, m + n) == Add(Scale(p, m), Scale(p, n))
  {
    assert p.red * (m + n) == p.red * m + p.red * n;
    assert p.green * (m + n) == p.green * m + p.green * n;
    assert p.blue * (m + n) == p.blue * m + p.blue * n;
  }

  lemma {:induction false} ColumnSumBetween(g: Grid, x: int, y0: int, y1: int, lo: Rgb, hi: Rgb)
    requires 0 <= x < |g| && 0 <= y0 <= y1 <= |g[x]|
    requires forall y :: y0 <= y < y1 ==> Between(lo, g[x][y], hi)
    ensures Between(Scale(lo, y1 - y0), ColumnSum(g, x, y0, y1), Scale(hi, y1 - y0))
  {
    if y1 > y0 {
      ColumnSumBetween(g, x, y0, y1 - 1, lo, hi);
      ScaleAdd(lo, y1 - 1 - y0, 1);
      ScaleAdd(hi, y1 - 1 - y0, 1);
    }
  }

  lemma BetweenAdd(lo1: Rgb, p1: Rgb, hi1: Rgb, lo2: Rgb, p2: Rgb, hi2: Rgb)
    requires Between(lo1, p1, hi1) && Between(lo2, p2, hi2)
    ensures Between(Add(lo1, lo2), Add(p1, p2), Add(hi1, hi2))
  {
  }

  lemma {:induction false} ColumnsSumBetween(g: Grid, x0: int, x1: int, y0: int, y1: int, lo: Rgb, hi: Rgb)
    requires Fits(g, Rect(x0, y0, x1, y1))
    requires forall x, y :: x0 <= x < x1 && y0 <= y < y1 ==> Between(lo, g[x][y], hi)
    ensures Between(Scale(lo, Count(x0, x1, y1 - y0)), ColumnsSum(g, x0, x1, y0, y1), Scale(hi, Count(x0, x1, y1 - y0)))
    decreases x1 - x0
  {
    if x1 > x0 {
      var n := Count(x0, x1 - 1, y1 - y0);
      ColumnsSumBetween(g, x0, x1 - 1, y0, y1, lo, hi);
      ColumnSumBetween(g, x1 - 1, y0, y1, lo, hi);
      BetweenAdd(Scale(lo, n), ColumnsSum(g, x0, x1 - 1, y0, y1), Scale(hi, n),
        Scale(lo, y1 - y0), ColumnSum(g, x1 - 1, y0, y1), Scale(hi, y1 - y0));
      ScaleAdd(lo, n, y1 - y0);
      ScaleAdd(hi, n, y1 - y0);
    }
  }

  /**
   * The average of a rectangle lies, channel by channel, between any bounds that
   * hold of every pixel in it.
   */
  lemma AverageBetween(g: Grid, r: Rect, lo: Rgb, hi: Rgb)
    requires Fits(g, r) && r.NonEmpty()
    requires forall x, y :: r.Contains(x, y) ==> Between(lo, g[x][y], hi)
    ensures Between(lo, Average(g, r), hi)
  {
    AreaPositive(r);
    CountIsArea(r.x0, r.x1, r.y1 - r.y0);
    ColumnsSumBetween(g, r.x0, r.x1, r.y0, r.y1, lo, hi);
    var t, n := RectSum(g, r), r.Area();
    DivBetween(t.red, n, lo.red, hi.red);
    DivBetween(t.green, n, lo.green, hi.green);
    DivBetween(t.blue, n, lo.blue, hi.blue);
  }

  /** Averaging colours gives a colour: `new Color(...)` never throws. */
  lemma AverageIsColor(g: Grid, r: Rect)
    requires Fits(g, r) && r.NonEmpty()
    requires forall x, y :: r.Contains(x, y) ==> IsColor(g[x][y])
    ensures IsColor(Average(g, r))
  {
    AverageBetween(g, r, Black, White);
  }

  /** A rectangle of one colour averages to that colour. */
  lemma AverageOfUniform(g: Grid, r: Rect, c: Rgb)
    requires Fits(g, r) && r.NonEmpty()
    requires forall x, y :: r.Contains(x, y) ==> g[x][y] == c
    ensures Average(g, r) == c
  {
    AverageBetween(g, r, c, c);
  }

  /** The average of a rectangle of two horizontally adjacent pixels. */
  lemma AverageOfPair(g: Grid, r: Rect)
    requires r.x1 == r.x0 + 2 && r.y1 == r.y0 + 1 && Fits(g, r)
    ensures Average(g, r) == Rgb(
      (g[r.x0][r.y0].red + g[r.x0 + 1][r.y0].red) / 2,
      (g[r.x0][r.y0].green + g[r.x0 + 1][r.y0].green) / 2,
      (g[r.x0][r.y0].blue + g[r.x0 + 1][r.y0].blue) / 2)
  {
    var x, y := r.x0, r.y0;
    assert ColumnSum(g, x, y, y + 1) == Add(Black, g[x][y]);
    assert ColumnSum(g, x + 1, y, y + 1) == Add(Black, g[x + 1][y]);
    assert ColumnsSum(g, x, x + 1, y, y + 1) == Add(Black, ColumnSum(g, x, y, y + 1));
    assert RectSum(g, r) == Add(ColumnsSum(g, x, x + 1, y, y + 1), ColumnSum(g, x + 1, y, y + 1));
    assert r.Area() == 2;
  }

  /** A black pixel beside a grey one of level v averages to grey of level v / 2. */
  lemma AverageOfUniformPair(g: Grid, r: Rect, v: int)
    requires r.x1 == r.x0 + 2 && r.y1 == r.y0 + 1 && Fits(g, r)
    requires 0 <= v <= 255
    requires g[r.x0][r.y0] == Black && g[r.x0 + 1][r.y0] == Rgb(v, v, v)
    ensures Average(g, r) == Rgb(v / 2, v / 2, v / 2)
  {
    AverageOfPair(g, r);
  }
}
