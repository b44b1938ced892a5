/** The two kinds of entity, the ball and the paddles: their per-frame update
    rules and how they draw themselves. Positions and velocities are Go float32
    values; here they are reals, and Go's int(...) conversion is Trunc. */
module Entities {
  import opened Pixels
  import opened Shapes

  /** Go's int(v) for a floating-point v: the integer part, truncated toward zero. */
  function Trunc(v: real): (n: int)
    ensures 0.0 <= v ==> 0 <= n && n as real <= v < n as real + 1.0
    ensures v < 0.0 ==> n <= 0 && n as real - 1.0 < v <= n as real
  {
    if v >= 0.0 then v.Floor else -((-v).Floor)
  }

  /** Go's n / 2 on int, which truncates toward zero (Dafny's / does not). */
  function Half(n: int): (h: int)
    ensures 0 <= n ==> 0 <= n - 2 * h <= 1
    ensures n < 0 ==> -1 <= n - 2 * h <= 0
  {
    if n >= 0 then n / 2 else -((-n) / 2)
  }

  /** The top-left corner paddle.draw computes for a w x h paddle at (x, y).
      The position names the paddle's centre: for positive sizes the truncated
      position lies inside the rectangle, and the rectangle reaches as far to
      the right of it as to the left, or one pixel less. */
  function TopLeft(x: real, y: real, w: int, h: int): (p: Point)
    ensures 0 < w ==> p.x <= Trunc(x) < p.x + w
    ensures 0 <= w ==> 0 <= (Trunc(x) - p.x) - (p.x + w - 1 - Trunc(x)) <= 1
    ensures 0 < h ==> p.y <= Trunc(y) < p.y + h
    ensures 0 <= h ==> 0 <= (Trunc(y) - p.y) - (p.y + h - 1 - Trunc(y)) <= 1
  {
    Point(Trunc(x) - Half(w), Trunc(y) - Half(h))
  }

  /** The ball's edge lies beyond the top or the bottom wall. */
  predicate BeyondRows(y: real, radius: int)
  {
    Trunc(y) - radius < 0 || Trunc(y) + radius > Height
  }

  /** The ball's edge lies beyond the left or the right wall. */
  predicate BeyondColumns(x: real, radius: int)
  {
    Trunc(x) - radius < 0 || Trunc(x) + radius > Width
  }

  /** The wall test on the truncated position, stated on the real position:
      the edge crosses the low wall exactly when v < radius and the high wall
      exactly when v >= limit - radius + 1. It holds for every v >= 0, and for
      negative v whenever the radius is positive. */
  lemma TruncatedWall(v: real, radius: int, limit: int)
    ensures 0.0 <= v || 0 < radius ==>
      ((Trunc(v) - radius < 0 || Trunc(v) + radius > limit) <==>
       (v < radius as real || (limit - radius + 1) as real <= v))
  {
    var n := Trunc(v);
    if 0.0 <= v {
      assert n as real <= v < n as real + 1.0;
      assert n < radius <==> v < radius as real;
      assert n >= limit - radius + 1 <==> (limit - radius + 1) as real <= v;
    }
  }

  /** Which rows of positions bounce the ball: below radius or at and past
      Height - radius + 1, with Height = 600. */
  lemma BeyondRowsByPosition(y: real, radius: int)
    ensures 0.0 <= y || 0 < radius ==>
      (BeyondRows(y, radius) <==> y < radius as real || (Height - radius + 1) as real <= y)
  {
    TruncatedWall(y, radius, Height);
  }

  /** Which columns of positions bounce the ball: below radius or at and past
      Width - radius + 1, with Width = 800. */
  lemma BeyondColumnsByPosition(x: real, radius: int)
    ensures 0.0 <= x || 0 < radius ==>
      (BeyondColumns(x, radius) <==> x < radius as real || (Width - radius + 1) as real <= x)
  {
    TruncatedWall(x, radius, Width);
  }

  /** The `ball` record: a position, a radius, a velocity and a colour. */
  class Ball {
    var x: real
    var y: real
    var radius: int
    var vx: real
    var vy: real
    var color: Color

    constructor (x: real, y: real, radius: int, vx: real, vy: real, color: Color)
      ensures this.x == x && this.y == y && this.radius == radius
      ensures this.vx == vx && this.vy == vy && this.color == color
    {
      this.x, this.y, this.radius := x, y, radius;
      this.vx, this.vy, this.color := vx, vy, color;
    }

    /** ball.draw: a filled circle at the truncated position. */
    method Draw(pixels: array<byte>)
      modifies pixels
      ensures pixels[..] == WithPixels(old(pixels[..]), CirclePoints(Trunc(x), Trunc(y), radius), color)
    {
      DrawCircle(Trunc(x), Trunc(y), radius, color, pixels);
    }

    /** ball.update: move by the velocity, then, judged at the NEW position and
        separately for each axis, reverse the velocity component of an axis
        whose wall the ball's edge crosses. Both may reverse in one call; the
        position is never pushed back inside. */
    method Update()
      modifies this
      ensures x == old(x) + old(vx) && y == old(y) + old(vy)
      ensures radius == old(radius) && color == old(color)
      ensures vy == if BeyondRows(y, radius) then -old(vy) else old(vy)
      ensures vx == if BeyondColumns(x, radius) then -old(vx) else old(vx)
      ensures vx * vx == old(vx * vx) && vy * vy == old(vy * vy)
    {
      x := x + vx;
      y := y + vy;
      if Trunc(y) - radius < 0 || Trunc(y) + radius > Height {
        vy := -vy;
      }
      if Trunc(x) - radius < 0 || Trunc(x) + radius > Width {
        vx := -vx;
      }
    }
  }

  /** The `paddle` record: a centre position, a size and a colour. */
  class Paddle {
    var x: real
    var y: real
    var width: int
    var height: int
    var color: Color

    constructor (x: real, y: real, width: int, height: int, color: Color)
      ensures this.x == x && this.y == y && this.width == width && this.height == height
      ensures this.color == color
    {
      this.x, this.y, this.width, this.height, this.color := x, y, width, height, color;
    }

    /** paddle.draw: a filled width x height rectangle centred on the position. */
    method Draw(pixels: array<byte>)
      modifies pixels
      ensures var p := TopLeft(x, y, width, height);
        pixels[..] == WithPixels(old(pixels[..]), RectPoints(p.x, p.y, width, height), color)
    {
      var startX := Trunc(x) - Half(width);
      var startY := Trunc(y) - Half(height);
      DrawRectangle(startX, startY, width, height, color, pixels);
    }

    /** paddle.update: "up" moves the paddle 3 up, "down" 3 down, both cancel.
        Only y changes, and it is not clamped to the canvas. */
    method Update(up: bool, down: bool)
      modifies this`y
      ensures up && !down ==> y == old(y) - 3.0
      ensures down && !up ==> y == old(y) + 3.0
      ensures up == down ==> y == old(y)
    {
      if up {
        y := y - 3.0;
      }
      if down {
        y := y + 3.0;
      }
    }

    /** paddle.aiUpdate: the paddle's y becomes the ball's y, whatever it was. */
    method AiUpdate(ball: Ball)
      modifies this`y
      ensures y == ball.y
    {
      y := ball.y;
    }
  }

  /** Concrete ball updates: away from the walls, at the top wall, and in a corner. */
  method BallScenarios()
  {
    var white := Color(255, 255, 255);

    // Away from every wall the ball moves by its velocity, which stays as it was.
    var ball := new Ball(300.0, 300.0, 10, 5.0, 5.0, white);
    ball.Update();
    assert ball.x == 305.0 && ball.y == 305.0 && ball.vx == 5.0 && ball.vy == 5.0;

    // The wall test uses the new position: from y = 5 the ball reaches y = 10,
    // whose edge (10 - 10 = 0) does not cross the top wall, so vy stays 5.
    var high := new Ball(300.0, 5.0, 10, 5.0, 5.0, white);
    high.Update();
    assert high.y == 10.0 && high.vy == 5.0;

    // From y = 4 it reaches y = 9, whose edge is at -1: vy reverses.
    var higher := new Ball(300.0, 4.0, 10, 5.0, 5.0, white);
    higher.Update();
    assert higher.y == 9.0 && higher.vy == -5.0;

    // In a corner both components reverse in the same call.
    var corner := new Ball(795.0, 597.0, 10, 1.0, 1.0, white);
    corner.Update();
    assert corner.vx == -1.0 && corner.vy == -1.0;
  }

  /** The paddle rules on concrete values. */
  method PaddleScenarios()
  {
    var white := Color(255, 255, 255);
    var ball := new Ball(305.0, 305.0, 10, 5.0, 5.0, white);
    var player := new Paddle(100.0, 100.0, 10, 100, white);
    player.Update(true, false);
    assert player.y == 97.0;
    player.Update(false, true);
    assert player.y == 100.0;
    player.Update(true, true);
    assert player.y == 100.0;

    var opponent := new Paddle(700.0, 100.0, 10, 100, white);
    opponent.AiUpdate(ball);
    assert opponent.y == 305.0 && opponent.x == 700.0;
  }
}
