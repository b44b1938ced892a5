/** The game's frame buffer: a row-major RGBA byte buffer, four bytes per
    pixel, and the single-pixel write (setPixel) that every painter uses. */
module Pixels {

  /** One byte of the buffer, Go's `byte`. */
  newtype byte = b: int | 0 <= b < 256

  /** The `color` record: three channels. There is no alpha channel. */
  datatype Color = Color(r: byte, g: byte, b: byte)

  /** An integer pixel coordinate as the painters pass it to setPixel. It may
      lie off the canvas. */
  datatype Point = Point(x: int, y: int)

  const Width: int := 800
  const Height: int := 600

  /** The length of the buffer the game allocates: four bytes for each pixel. */
  const CanvasBytes: int := Width * Height * 4

  /** The byte offset setPixel computes for a point. */
  function Index(p: Point): int
  {
    (p.y * Width + p.x) * 4
  }

  /** setPixel's bounds guard. It tests only the linear offset, never x and y
      separately. */
  predicate InGuard(index: int, len: int)
  {
    0 <= index < len - 4
  }

  /** Channel k of a colour, in the byte order setPixel writes: red, green, blue. */
  function Channel(c: Color, k: int): byte
    requires 0 <= k < 3
  {
    if k == 0 then c.r else if k == 1 then c.g else c.b
  }

  /** Writing point p changes byte k of a buffer of length len. */
  predicate Writes(p: Point, k: int, len: int)
  {
    InGuard(Index(p), len) && Index(p) <= k < Index(p) + 3
  }

  /** The buffer s after setPixel(p.x, p.y, c). */
  function WithPixel(s: seq<byte>, p: Point, c: Color): (t: seq<byte>)
    ensures |t| == |s|
  {
    var i := Index(p);
    if InGuard(i, |s|) then s[i := c.r][i + 1 := c.g][i + 2 := c.b] else s
  }

  /** setPixel: writes r, g and b at the pixel's offset, and nothing at all when
      the offset fails the guard. */
  method SetPixel(x: int, y: int, c: Color, pixels: array<byte>)
    modifies pixels
    ensures pixels[..] == WithPixel(old(pixels[..]), Point(x, y), c)
    ensures !InGuard(Index(Point(x, y)), pixels.Length) ==> pixels[..] == old(pixels[..])
  {
    var index := (y * Width + x) * 4;
    if index < pixels.Length - 4 && index >= 0 {
      pixels[index] := c.r;
      pixels[index + 1] := c.g;
      pixels[index + 2] := c.b;
    }
  }

  /** Byte k after one setPixel: the matching channel when the write covers k,
      otherwise unchanged. */
  lemma WithPixelAt(s: seq<byte>, p: Point, c: Color, k: int)
    requires 0 <= k < |s|
    ensures Writes(p, k, |s|) ==> k % 4 < 3
    ensures WithPixel(s, p, c)[k] == if Writes(p, k, |s|) then Channel(c, k % 4) else s[k]
  {
    if Writes(p, k, |s|) {
      assert Index(p) % 4 == 0;
      assert k - Index(p) == k % 4;
    }
  }

  /** The offset is the row-major pixel number times four, so for an on-canvas
      column it decodes back to the point. */
  lemma IndexDecodes(p: Point)
    requires 0 <= p.x < Width
    ensures Index(p) % 4 == 0
    ensures Index(p) / 4 == p.y * Width + p.x
    ensures (Index(p) / 4) % Width == p.x && (Index(p) / 4) / Width == p.y
  {
    var n := p.y * Width + p.x;
    assert Index(p) == 4 * n;
    assert n / Width == p.y && n % Width == p.x;
  }

  /** Because the guard tests only the offset, a column just past either edge
      writes into the neighbouring row. */
  lemma RowWrap(s: seq<byte>, y: int, c: Color)
    ensures WithPixel(s, Point(Width, y), c) == WithPixel(s, Point(0, y + 1), c)
    ensures WithPixel(s, Point(-1, y), c) == WithPixel(s, Point(Width - 1, y - 1), c)
  {
    assert Index(Point(Width, y)) == Index(Point(0, y + 1));
    assert Index(Point(-1, y)) == Index(Point(Width - 1, y - 1));
  }

  /** On the game's buffer the guard rejects the last pixel (799, 599), whose
      offset is exactly len - 4, and accepts the one before it. */
  lemma LastPixelNeverWritten(s: seq<byte>, c: Color)
    requires |s| == CanvasBytes
    ensures !InGuard(Index(Point(Width - 1, Height - 1)), |s|)
    ensures WithPixel(s, Point(Width - 1, Height - 1), c) == s
    ensures InGuard(Index(Point(Width - 2, Height - 1)), |s|)
  {
  }

  /** The buffer s after setPixel of every point of pts, in order, with colour c. */
  function WithPixels(s: seq<byte>, pts: seq<Point>, c: Color): (t: seq<byte>)
    ensures |t| == |s|
    decreases |pts|
  {
    if pts == [] then s
    else WithPixel(WithPixels(s, pts[..|pts| - 1], c), pts[|pts| - 1], c)
  }

  /** One more point painted at the end of the list. */
  lemma WithPixelsSnoc(s: seq<byte>, pts: seq<Point>, p: Point, c: Color)
    ensures WithPixels(s, pts + [p], c) == WithPixel(WithPixels(s, pts, c), p, c)
  {
    assert (pts + [p])[..|pts|] == pts;
  }

  /** Painting two lists one after the other is painting their concatenation. */
  lemma {:induction false} WithPixelsAppend(s: seq<byte>, first: seq<Point>, second: seq<Point>, c: Color)
    ensures WithPixels(s, first + second, c) == WithPixels(WithPixels(s, first, c), second, c)
    decreases |second|
  {
    if second != [] {
      var front, p := second[..|second| - 1], second[|second| - 1];
      assert second == front + [p];
      assert first + second == (first + front) + [p];
      WithPixelsAppend(s, first, front, c);
      WithPixelsSnoc(s, first + front, p, c);
      WithPixelsSnoc(WithPixels(s, first, c), front, p, c);
    } else {
      assert first + second == first;
    }
  }

  /** Some point of pts writes byte k. */
  ghost predicate Covered(pts: seq<Point>, k: int, len: int)
  {
    exists p :: p in pts && Writes(p, k, len)
  }

  /** Byte k after painting pts: the matching channel of c when some point of
      pts writes it, otherwise its old value. */
  lemma {:induction false} WithPixelsAt(s: seq<byte>, pts: seq<Point>, c: Color, k: int)
    requires 0 <= k < |s|
    ensures Covered(pts, k, |s|) ==> k % 4 < 3
    ensures WithPixels(s, pts, c)[k] == if Covered(pts, k, |s|) then Channel(c, k % 4) else s[k]
  {
    if pts != [] {
      var front, p := pts[..|pts| - 1], pts[|pts| - 1];
      assert pts == front + [p];
      WithPixelsAt(s, front, c, k);
      WithPixelAt(WithPixels(s, front, c), p, c, k);
      if Covered(pts, k, |s|) {
        var q :| q in pts && Writes(q, k, |s|);
        if q != p {
          assert q in front;
        }
      }
      if Covered(front, k, |s|) {
        var q :| q in front && Writes(q, k, |s|);
        assert q in pts;
      }
    }
  }

  /** No list of writes changes an alpha byte. */
  lemma AlphaUntouched(s: seq<byte>, pts: seq<Point>, c: Color, k: int)
    requires 0 <= k < |s| && k % 4 == 3
    ensures WithPixels(s, pts, c)[k] == s[k]
  {
    WithPixelsAt(s, pts, c, k);
  }

  /** The pixel at p shows colour c in s. */
  predicate Shows(s: seq<byte>, p: Point, c: Color)
    requires InGuard(Index(p), |s|)
  {
    s[Index(p)] == c.r && s[Index(p) + 1] == c.g && s[Index(p) + 2] == c.b
  }

  /** Every painted point whose offset passes the guard ends up showing c. */
  lemma PaintedPointShows(s: seq<byte>, pts: seq<Point>, c: Color, p: Point)
    requires p in pts && InGuard(Index(p), |s|)
    ensures Shows(WithPixels(s, pts, c), p, c)
  {
    var i := Index(p);
    assert i % 4 == 0;
    assert Writes(p, i, |s|) && Writes(p, i + 1, |s|) && Writes(p, i + 2, |s|);
    WithPixelsAt(s, pts, c, i);
    WithPixelsAt(s, pts, c, i + 1);
    WithPixelsAt(s, pts, c, i + 2);
  }

  /** Some point of pts has the same offset as q. */
  ghost predicate Reaches(pts: seq<Point>, q: Point)
  {
    exists p :: p in pts && Index(p) == Index(q)
  }

  /** A point writes one of the colour bytes of the pixel at q exactly when
      its own offset is that of q. */
  lemma SameOffset(p: Point, q: Point, len: int)
    requires InGuard(Index(q), len)
    ensures Writes(p, Index(q), len) <==> Index(p) == Index(q)
    ensures Writes(p, Index(q) + 1, len) <==> Index(p) == Index(q)
    ensures Writes(p, Index(q) + 2, len) <==> Index(p) == Index(q)
  {
    assert Index(p) == 4 * (p.y * Width + p.x);
    assert Index(q) == 4 * (q.y * Width + q.x);
  }

  /** A guard-accepted pixel shows c after painting pts exactly when it showed
      c before or some point of pts has its offset. */
  lemma PixelAfter(s: seq<byte>, pts: seq<Point>, c: Color, q: Point)
    requires InGuard(Index(q), |s|)
    ensures Shows(WithPixels(s, pts, c), q, c) <==> Shows(s, q, c) || Reaches(pts, q)
  {
    var n := Index(q);
    assert n % 4 == 0;
    WithPixelsAt(s, pts, c, n);
    WithPixelsAt(s, pts, c, n + 1);
    WithPixelsAt(s, pts, c, n + 2);
    forall p | p in pts
      ensures Writes(p, n, |s|) <==> Index(p) == n
      ensures Writes(p, n + 1, |s|) <==> Index(p) == n
      ensures Writes(p, n + 2, |s|) <==> Index(p) == n
    {
      SameOffset(p, q, |s|);
    }
    assert Covered(pts, n, |s|) <==> Reaches(pts, q);
    assert Covered(pts, n + 1, |s|) <==> Reaches(pts, q);
    assert Covered(pts, n + 2, |s|) <==> Reaches(pts, q);
  }
}
