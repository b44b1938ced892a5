/** The shape painters: filled rectangle, filled circle and full-canvas
    background. Each is a nested loop of setPixel calls; each is specified by
    the list of points it visits, in visiting order, so that its effect on the
    buffer is WithPixels of that list. */
module Shapes {
  import opened Pixels

  /** The points (x0, j), ..., (x0 + n - 1, j), left to right. */
  function RowPoints(x0: int, n: int, j: int): seq<Point>
    decreases n
  {
    if n <= 0 then [] else RowPoints(x0, n - 1, j) + [Point(x0 + n - 1, j)]
  }

  /** The rows y, ..., y + m - 1 of a rectangle a pixels wide at column x, top to bottom. */
  function RectPoints(x: int, y: int, a: int, m: int): seq<Point>
    decreases m
  {
    if m <= 0 then [] else RectPoints(x, y, a, m - 1) + RowPoints(x, a, y + m - 1)
  }

  lemma {:induction false} RowPointsHas(x0: int, n: int, j: int, p: Point)
    ensures p in RowPoints(x0, n, j) <==> p.y == j && x0 <= p.x < x0 + n
  {
    if n > 0 {
      RowPointsHas(x0, n - 1, j, p);
    }
  }

  /** The rectangle's points are exactly the half-open box [x, x+a) x [y, y+m). */
  lemma {:induction false} RectPointsHas(x: int, y: int, a: int, m: int, p: Point)
    ensures p in RectPoints(x, y, a, m) <==> x <= p.x < x + a && y <= p.y < y + m
  {
    if m > 0 {
      RectPointsHas(x, y, a, m - 1, p);
      RowPointsHas(x, a, y + m - 1, p);
    }
  }

  /** One more row of a rectangle. */
  lemma RectGrows(x: int, y: int, a: int, j: int)
    requires y <= j
    ensures RectPoints(x, y, a, j + 1 - y) == RectPoints(x, y, a, j - y) + RowPoints(x, a, j)
  {
  }

  /** The inner loop of drawRectangle and drawBackground: columns x0 to
      x0+n-1 of row j, left to right. */
  method DrawRow(x0: int, n: int, j: int, c: Color, pixels: array<byte>)
    modifies pixels
    ensures pixels[..] == WithPixels(old(pixels[..]), RowPoints(x0, n, j), c)
  {
    ghost var s0 := pixels[..];
    ghost var cols := if n > 0 then n else 0;
    var i := x0;
    while i < x0 + n
      invariant x0 <= i <= x0 + cols
      invariant pixels[..] == WithPixels(s0, RowPoints(x0, i - x0, j), c)
    {
      SetPixel(i, j, c, pixels);
      WithPixelsSnoc(s0, RowPoints(x0, i - x0, j), Point(i, j), c);
      assert RowPoints(x0, i + 1 - x0, j) == RowPoints(x0, i - x0, j) + [Point(i, j)];
      i := i + 1;
    }
    assert RowPoints(x0, i - x0, j) == RowPoints(x0, n, j);
  }

  /** drawRectangle(x, y, a, b, c): rows y to y+b-1, and in each row the columns x to x+a-1. */
  method DrawRectangle(x: int, y: int, a: int, b: int, c: Color, pixels: array<byte>)
    modifies pixels
    ensures pixels[..] == WithPixels(old(pixels[..]), RectPoints(x, y, a, b), c)
  {
    ghost var s0 := pixels[..];
    ghost var rows := if b > 0 then b else 0;
    var j := y;
    while j < y + b
      invariant y <= j <= y + rows
      invariant pixels[..] == WithPixels(s0, RectPoints(x, y, a, j - y), c)
    {
      DrawRow(x, a, j, c, pixels);
      WithPixelsAppend(s0, RectPoints(x, y, a, j - y), RowPoints(x, a, j), c);
      RectGrows(x, y, a, j);
      j := j + 1;
    }
  }

  /** Byte k after drawRectangle: the matching channel of c when some point of
      the box writes it, otherwise unchanged. */
  lemma RectangleAt(s: seq<byte>, x: int, y: int, a: int, b: int, c: Color, k: int)
    requires 0 <= k < |s|
    ensures WithPixels(s, RectPoints(x, y, a, b), c)[k] ==
      if exists i, j :: x <= i < x + a && y <= j < y + b && Writes(Point(i, j), k, |s|)
      then Channel(c, k % 4) else s[k]
  {
    var pts := RectPoints(x, y, a, b);
    WithPixelsAt(s, pts, c, k);
    if Covered(pts, k, |s|) {
      var p :| p in pts && Writes(p, k, |s|);
      RectPointsHas(x, y, a, b, p);
      assert Writes(Point(p.x, p.y), k, |s|);
    }
    if exists i, j :: x <= i < x + a && y <= j < y + b && Writes(Point(i, j), k, |s|) {
      var i, j :| x <= i < x + a && y <= j < y + b && Writes(Point(i, j), k, |s|);
      RectPointsHas(x, y, a, b, Point(i, j));
    }
  }

  /** Every pixel of the box whose offset passes the guard shows c afterwards. */
  lemma RectanglePaints(s: seq<byte>, x: int, y: int, a: int, b: int, c: Color, p: Point)
    requires x <= p.x < x + a && y <= p.y < y + b
    requires InGuard(Index(p), |s|)
    ensures Shows(WithPixels(s, RectPoints(x, y, a, b), c), p, c)
  {
    RectPointsHas(x, y, a, b, p);
    PaintedPointShows(s, RectPoints(x, y, a, b), c, p);
  }

  /** A rectangle with no width or no height leaves the buffer as it was. */
  lemma EmptyRectangle(s: seq<byte>, x: int, y: int, a: int, b: int, c: Color)
    requires a <= 0 || b <= 0
    ensures WithPixels(s, RectPoints(x, y, a, b), c) == s
  {
    var pts := RectPoints(x, y, a, b);
    if pts != [] {
      RectPointsHas(x, y, a, b, pts[0]);
      assert false;
    }
  }

  /** drawCircle's filter: the squared distance to the centre is at most r squared. */
  predicate InDisc(i: int, j: int, x: int, y: int, r: int)
  {
    (i - x) * (i - x) + (j - y) * (j - y) <= r * r
  }

  /** |d| <= r exactly when d squared is at most r squared. */
  lemma SquareBound(d: int, r: int)
    requires 0 <= r
    ensures d * d <= r * r <==> -r <= d <= r
  {
    if d > r {
      assert d * d > r * d >= r * r;
    } else if d < -r {
      assert d * d == (-d) * (-d) > r * (-d) >= r * r;
    } else if d >= 0 {
      assert d * d <= r * d <= r * r;
    } else {
      assert d * d == (-d) * (-d) <= r * (-d) <= r * r;
    }
  }

  /** The filter's extent: for r >= 0 it accepts only points of the closed
      square of side 2r + 1 around the centre, and it accepts the whole
      horizontal and vertical diameters of that square. */
  lemma InDiscBounds(i: int, j: int, x: int, y: int, r: int)
    ensures 0 <= r && InDisc(i, j, x, y, r) ==> x - r <= i <= x + r && y - r <= j <= y + r
    ensures 0 <= r && i == x && y - r <= j <= y + r ==> InDisc(i, j, x, y, r)
    ensures 0 <= r && j == y && x - r <= i <= x + r ==> InDisc(i, j, x, y, r)
  {
    if 0 <= r {
      SquareBound(i - x, r);
      SquareBound(j - y, r);
      assert (i - x) * (i - x) >= 0 && (j - y) * (j - y) >= 0;
    }
  }

  /** The first n columns of row j of the circle's box, from x - r on, that pass the filter. */
  function DiscRow(x: int, y: int, r: int, j: int, n: int): seq<Point>
    decreases n
  {
    if n <= 0 then []
    else if InDisc(x - r + n - 1, j, x, y, r) then DiscRow(x, y, r, j, n - 1) + [Point(x - r + n - 1, j)]
    else DiscRow(x, y, r, j, n - 1)
  }

  /** The first m rows of the circle's box, from y - r on, each filtered. */
  function DiscRows(x: int, y: int, r: int, m: int): seq<Point>
    decreases m
  {
    if m <= 0 then [] else DiscRows(x, y, r, m - 1) + DiscRow(x, y, r, y - r + m - 1, 2 * r)
  }

  /** The points drawCircle(x, y, r, _) paints, in order. */
  function CirclePoints(x: int, y: int, r: int): seq<Point>
  {
    DiscRows(x, y, r, 2 * r)
  }

  lemma {:induction false} DiscRowHas(x: int, y: int, r: int, j: int, n: int, p: Point)
    ensures p in DiscRow(x, y, r, j, n) <==>
      p.y == j && x - r <= p.x < x - r + n && InDisc(p.x, p.y, x, y, r)
  {
    if n > 0 {
      DiscRowHas(x, y, r, j, n - 1, p);
    }
  }

  lemma {:induction false} DiscRowsHas(x: int, y: int, r: int, m: int, p: Point)
    ensures p in DiscRows(x, y, r, m) <==>
      x - r <= p.x < x + r && y - r <= p.y < y - r + m && InDisc(p.x, p.y, x, y, r)
  {
    if m > 0 {
      DiscRowsHas(x, y, r, m - 1, p);
      DiscRowHas(x, y, r, y - r + m - 1, 2 * r, p);
    }
  }

  /** The circle's points are exactly the points of the half-open box
      [x-r, x+r) x [y-r, y+r) that pass the filter. */
  lemma CirclePointsHas(x: int, y: int, r: int, p: Point)
    ensures p in CirclePoints(x, y, r) <==>
      x - r <= p.x < x + r && y - r <= p.y < y + r && InDisc(p.x, p.y, x, y, r)
  {
    DiscRowsHas(x, y, r, 2 * r, p);
  }

  /** The inner loop of drawCircle: the columns x-r to x+r-1 of row j, painting
      those that pass the filter. */
  method DrawDiscRow(x: int, y: int, r: int, j: int, c: Color, pixels: array<byte>)
    modifies pixels
    ensures pixels[..] == WithPixels(old(pixels[..]), DiscRow(x, y, r, j, 2 * r), c)
  {
    ghost var s0 := pixels[..];
    ghost var cols := if r > 0 then 2 * r else 0;
    var i := x - r;
    while i < x + r
      invariant x - r <= i <= x - r + cols
      invariant pixels[..] == WithPixels(s0, DiscRow(x, y, r, j, i - (x - r)), c)
    {
      ghost var row := DiscRow(x, y, r, j, i - (x - r));
      if (i - x) * (i - x) + (j - y) * (j - y) <= r * r {
        SetPixel(i, j, c, pixels);
        WithPixelsSnoc(s0, row, Point(i, j), c);
        assert DiscRow(x, y, r, j, i + 1 - (x - r)) == row + [Point(i, j)];
      } else {
        assert DiscRow(x, y, r, j, i + 1 - (x - r)) == row;
      }
      i := i + 1;
    }
    assert DiscRow(x, y, r, j, i - (x - r)) == DiscRow(x, y, r, j, 2 * r);
  }

  /** drawCircle(x, y, r, c): rows y-r to y+r-1, columns x-r to x+r-1, painting
      the points that pass the filter. */
  method DrawCircle(x: int, y: int, r: int, c: Color, pixels: array<byte>)
    modifies pixels
    ensures pixels[..] == WithPixels(old(pixels[..]), CirclePoints(x, y, r), c)
  {
    ghost var s0 := pixels[..];
    ghost var rows := if r > 0 then 2 * r else 0;
    var j := y - r;
    while j < y + r
      invariant y - r <= j <= y - r + rows
      invariant pixels[..] == WithPixels(s0, DiscRows(x, y, r, j - (y - r)), c)
    {
      DrawDiscRow(x, y, r, j, c, pixels);
      WithPixelsAppend(s0, DiscRows(x, y, r, j - (y - r)), DiscRow(x, y, r, j, 2 * r), c);
      assert DiscRows(x, y, r, j + 1 - (y - r)) == DiscRows(x, y, r, j - (y - r)) + DiscRow(x, y, r, j, 2 * r);
      j := j + 1;
    }
  }

  /** Byte k after drawCircle: the matching channel of c when some filtered
      point of the box writes it, otherwise unchanged. */
  lemma CircleAt(s: seq<byte>, x: int, y: int, r: int, c: Color, k: int)
    requires 0 <= k < |s|
    ensures WithPixels(s, CirclePoints(x, y, r), c)[k] ==
      if exists i, j :: x - r <= i < x + r && y - r <= j < y + r && InDisc(i, j, x, y, r) && Writes(Point(i, j), k, |s|)
      then Channel(c, k % 4) else s[k]
  {
    var pts := CirclePoints(x, y, r);
    WithPixelsAt(s, pts, c, k);
    if Covered(pts, k, |s|) {
      var p :| p in pts && Writes(p, k, |s|);
      CirclePointsHas(x, y, r, p);
      assert Writes(Point(p.x, p.y), k, |s|);
    }
    if exists i, j :: x - r <= i < x + r && y - r <= j < y + r && InDisc(i, j, x, y, r) && Writes(Point(i, j), k, |s|) {
      var i, j :| x - r <= i < x + r && y - r <= j < y + r && InDisc(i, j, x, y, r) && Writes(Point(i, j), k, |s|);
      CirclePointsHas(x, y, r, Point(i, j));
    }
  }

  /** Some filtered point of the circle's box has the same offset as q. */
  ghost predicate DiscReaches(x: int, y: int, r: int, q: Point)
  {
    exists i, j :: x - r <= i < x + r && y - r <= j < y + r && InDisc(i, j, x, y, r) && Index(Point(i, j)) == Index(q)
  }

  /** A guard-accepted pixel shows c after drawCircle exactly when it showed c
      before or a filtered point of the box lands on its offset (the point
      itself, or a point one row off whose column lies off the canvas). */
  lemma CirclePixel(s: seq<byte>, x: int, y: int, r: int, c: Color, q: Point)
    requires InGuard(Index(q), |s|)
    ensures Shows(WithPixels(s, CirclePoints(x, y, r), c), q, c) <==> Shows(s, q, c) || DiscReaches(x, y, r, q)
  {
    var pts := CirclePoints(x, y, r);
    PixelAfter(s, pts, c, q);
    if Reaches(pts, q) {
      var p :| p in pts && Index(p) == Index(q);
      CirclePointsHas(x, y, r, p);
      assert Index(Point(p.x, p.y)) == Index(q);
    }
    if DiscReaches(x, y, r, q) {
      var i, j :| x - r <= i < x + r && y - r <= j < y + r && InDisc(i, j, x, y, r) && Index(Point(i, j)) == Index(q);
      CirclePointsHas(x, y, r, Point(i, j));
    }
  }

  /** The rasterised disc is lopsided: the leftmost and topmost boundary points
      are visited, the rightmost and bottommost are not, and no point of column
      x + r or of row y + r is visited. A visited point whose offset fails the
      guard writes nothing, and through the row wrap a visited point can still
      change a pixel of row y + r (CircleWrapsIntoRow). */
  lemma CircleBoundary(x: int, y: int, r: int, i: int, j: int)
    ensures Point(x + r, j) !in CirclePoints(x, y, r)
    ensures Point(i, y + r) !in CirclePoints(x, y, r)
    ensures r > 0 ==> Point(x - r, y) in CirclePoints(x, y, r) && Point(x, y - r) in CirclePoints(x, y, r)
  {
    CirclePointsHas(x, y, r, Point(x + r, j));
    CirclePointsHas(x, y, r, Point(i, y + r));
    CirclePointsHas(x, y, r, Point(x - r, y));
    CirclePointsHas(x, y, r, Point(x, y - r));
  }

  /** A disc overhanging the right edge paints, through the row wrap, the first
      pixel of row y + r, a row no visited point lies on: its point
      (800, y + r - 1) has the offset of (0, y + r). */
  lemma CircleWrapsIntoRow(s: seq<byte>, x: int, y: int, r: int, c: Color)
    requires x - r <= Width < x + r && InDisc(Width, y + r - 1, x, y, r)
    requires InGuard(Index(Point(0, y + r)), |s|)
    ensures Shows(WithPixels(s, CirclePoints(x, y, r), c), Point(0, y + r), c)
  {
    var p := Point(Width, y + r - 1);
    CirclePointsHas(x, y, r, p);
    assert Index(p) == Index(Point(0, y + r));
    PaintedPointShows(s, CirclePoints(x, y, r), c, p);
  }

  /** drawCircle(796, 5, 10, c) on the game's buffer colours pixel (0, 15),
      though no point of row 15 is visited. */
  lemma CircleWrapExample(s: seq<byte>, c: Color)
    requires |s| == CanvasBytes
    ensures Shows(WithPixels(s, CirclePoints(796, 5, 10), c), Point(0, 15), c)
    ensures Point(0, 15) !in CirclePoints(796, 5, 10)
  {
    CircleWrapsIntoRow(s, 796, 5, 10, c);
    CircleBoundary(796, 5, 10, 0, 0);
  }

  /** drawBackground(c): rows 0 to 599, columns 0 to 799, every point painted. */
  method DrawBackground(c: Color, pixels: array<byte>)
    modifies pixels
    ensures pixels[..] == WithPixels(old(pixels[..]), RectPoints(0, 0, Width, Height), c)
  {
    ghost var s0 := pixels[..];
    var y := 0;
    while y < Height
      invariant 0 <= y <= Height
      invariant pixels[..] == WithPixels(s0, RectPoints(0, 0, Width, y), c)
    {
      DrawRow(0, Width, y, c, pixels);
      WithPixelsAppend(s0, RectPoints(0, 0, Width, y), RowPoints(0, Width, y), c);
      RectGrows(0, 0, Width, y);
      y := y + 1;
    }
  }

  /** Every pixel of the first h full rows whose offset passes the guard shows
      c after they are painted; with h = Height this is drawBackground. */
  lemma BackgroundPaints(s: seq<byte>, c: Color, h: int, p: Point)
    requires 0 <= p.x < Width && 0 <= p.y < h
    requires InGuard(Index(p), |s|)
    ensures Shows(WithPixels(s, RectPoints(0, 0, Width, h), c), p, c)
  {
    RectanglePaints(s, 0, 0, Width, h, c, p);
  }

  /** The pixel of a Width-wide buffer whose colour bytes hold byte k. */
  lemma PixelOf(k: int, h: int) returns (p: Point)
    requires 0 <= k < Width * h * 4 - 4 && k % 4 != 3
    ensures 0 <= p.x < Width && 0 <= p.y < h
    ensures Writes(p, k, Width * h * 4)
  {
    var n := k / 4;
    p := Point(n % Width, n / Width);
    assert n == p.y * Width + p.x;
    assert Index(p) == 4 * n;
  }

  /** Nothing writes an alpha byte or a byte of the buffer's last four. */
  lemma OnlyColourBytes(p: Point, k: int, pixelCount: int)
    requires Writes(p, k, 4 * pixelCount)
    ensures k < 4 * pixelCount - 4 && k % 4 != 3
  {
    assert Index(p) == 4 * (p.y * Width + p.x);
  }

  /** Byte k after painting all h full rows of a buffer exactly h rows high;
      with h = Height this is drawBackground on the game's buffer. Every r, g
      and b byte becomes c except those of the last pixel, and the alpha bytes
      and the last pixel's four bytes keep their values. */
  lemma FullRowsByte(s: seq<byte>, c: Color, h: int, k: int)
    requires |s| == Width * h * 4 && 0 <= k < |s|
    ensures WithPixels(s, RectPoints(0, 0, Width, h), c)[k] ==
      if k < |s| - 4 && k % 4 != 3 then Channel(c, k % 4) else s[k]
  {
    var pts := RectPoints(0, 0, Width, h);
    WithPixelsAt(s, pts, c, k);
    if k < |s| - 4 && k % 4 != 3 {
      var p := PixelOf(k, h);
      RectPointsHas(0, 0, Width, h, p);
    } else if Covered(pts, k, |s|) {
      var p :| p in pts && Writes(p, k, |s|);
      assert |s| == 4 * (Width * h);
      OnlyColourBytes(p, k, Width * h);
    }
  }
}
