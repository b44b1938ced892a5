# Pong rasterizer and entity rules, in Dafny

This project models the logic of the Pong game in `Pong/sdl2.go`: a software
rasterizer that writes into one RGBA byte buffer, and the per-frame update and
draw rules of the ball and the two paddles.

- `pixels.dfy` (module `Pixels`): the 800 x 600 canvas and its buffer. The
  buffer is row-major, four bytes per pixel. `SetPixel` writes the r, g and b
  bytes at offset `(y*800 + x)*4`. It writes only when `0 <= offset < len - 4`.
  `WithPixel` and `WithPixels` are the same writes on sequences. Every painter
  is specified with them.
- `shapes.dfy` (module `Shapes`): `drawRectangle`, `drawCircle` and
  `drawBackground` as nested `while` loops over an `array<byte>`. Each is
  proved to equal `WithPixels(old buffer, points, c)`, where `points` lists the
  visited points in the source's loop order (`RectPoints`, `CirclePoints`).
  Lemmas then give the result byte by byte and pixel by pixel. The inner loop
  of each painter is its own method (`DrawRow`, `DrawDiscRow`); it loops over
  the same range as the source's inner `for`.
- `entities.dfy` (module `Entities`): the `ball` and `paddle` records as
  classes whose methods update their fields in place, as Go's pointer receivers
  do. Positions and velocities are `real`. Go's `int(v)` conversion is `Trunc`, a
  truncation toward zero. Go's `n/2` on `int` is `Half`, also a truncation
  toward zero (Dafny's own `/` rounds down).

Every drawing operation ends in `WithPixels`. So the generic lemmas about
`WithPixels` hold for all of them: the length never changes
(`WithPixels`'s own contract) and no alpha byte changes (`AlphaUntouched`).

The bounds guard tests only the linear offset. So a point whose column lies
off the canvas can still land in the neighbouring row (`RowWrap`). For that
reason the circle's pixel-level "iff" (`CirclePixel`) says "some point of the
disc has this pixel's offset", not "this pixel's coordinates are in the disc";
those two differ across the row wrap.

The wall test in `ball.update` uses the position after the move. So a ball at
y = 5 with radius 10 and vy = 5 moves to y = 10. Its edge is then at 0, which
is not below 0, so vy stays 5. Judging the wall from the old position would
flip vy; the code judges it from the new one. `BallScenarios` replays this case
and the ones beside it.

## Model

| member | source | states |
|---|---|---|
| Pixels.SetPixel | Pong/sdl2.go:40-48 | the buffer becomes `WithPixel(old, (x, y), c)`: r, g, b at offset `(y*800+x)*4` when `0 <= offset < len-4`, and no change at all otherwise |
| Pixels.WithPixelAt | Pong/sdl2.go:41-47 | after one setPixel, byte k holds channel `k % 4` of c exactly when the guard accepts the offset and k is one of the three bytes from it; every other byte, the fourth included, keeps its value |
| Pixels.IndexDecodes | Pong/sdl2.go:41 | the offset is four times the row-major pixel number, and for a column in [0, 800) it decodes back to (x, y) |
| Pixels.RowWrap | Pong/sdl2.go:41-43 | with the guard on the offset only, column 800 of row y is column 0 of row y+1, and column -1 of row y is column 799 of row y-1 |
| Pixels.LastPixelNeverWritten | Pong/sdl2.go:43 | on the game's 800*600*4-byte buffer the guard rejects pixel (799, 599), so writing it changes nothing, and accepts (798, 599) |
| Pixels.WithPixel | Pong/sdl2.go:40-48 | setPixel on a byte sequence; the buffer's length never changes (each byte's value is given by `WithPixelAt`) |
| Pixels.WithPixels | Pong/sdl2.go:40-48 | a run of setPixel calls in list order; the buffer's length never changes (each byte's value is given by `WithPixelsAt`) |
| Pixels.WithPixelsAt | Pong/sdl2.go:40-48 | after painting a list of points, byte k holds channel `k % 4` of c iff some point of the list writes it, and otherwise keeps its value |
| Pixels.WithPixelsAppend | Pong/sdl2.go:50-56 | painting one list and then another is painting their concatenation |
| Pixels.AlphaUntouched | Pong/sdl2.go:44-46 | no sequence of writes changes an alpha byte |
| Pixels.PaintedPointShows | Pong/sdl2.go:44-46 | every painted point whose offset passes the guard shows c afterwards |
| Pixels.PixelAfter | Pong/sdl2.go:40-48 | a guard-accepted pixel shows c after painting iff it showed c before or some painted point has its offset |
| Shapes.RectPointsHas | Pong/sdl2.go:51-52 | the rectangle's points are exactly the half-open box [x, x+a) x [y, y+b) |
| Shapes.DrawRow | Pong/sdl2.go:52-54 | the inner loop paints columns x to x+a-1 of row j, left to right |
| Shapes.DrawRectangle | Pong/sdl2.go:50-56 | the buffer becomes the old one painted with the box's points in row-major order |
| Shapes.RectangleAt | Pong/sdl2.go:50-56 | after drawRectangle, byte k holds channel `k % 4` of c iff some point of the box writes it (guard-accepted offset, k one of its three bytes), and otherwise keeps its value |
| Shapes.RectanglePaints | Pong/sdl2.go:50-56 | every guard-accepted pixel of the box shows c afterwards |
| Shapes.EmptyRectangle | Pong/sdl2.go:51-52 | with a <= 0 or b <= 0 the buffer is unchanged |
| Shapes.CirclePointsHas | Pong/sdl2.go:59-61 | the circle's points are exactly the points of [x-r, x+r) x [y-r, y+r) with (i-x)^2 + (j-y)^2 <= r^2 |
| Shapes.InDiscBounds | Pong/sdl2.go:61 | drawCircle's filter `InDisc`, `(i-x)^2 + (j-y)^2 <= r^2`: for r >= 0 it accepts only points within r of the centre on each axis, and accepts the whole horizontal and vertical diameters |
| Shapes.DrawDiscRow | Pong/sdl2.go:60-64 | the inner loop paints, left to right, the columns x-r to x+r-1 of row j that pass the distance test |
| Shapes.DrawCircle | Pong/sdl2.go:58-66 | the buffer becomes the old one painted with the circle's points in row-major order |
| Shapes.CircleAt | Pong/sdl2.go:58-66 | after drawCircle, byte k holds channel `k % 4` of c iff some filtered point of the box writes it, and otherwise keeps its value |
| Shapes.CirclePixel | Pong/sdl2.go:58-66 | a guard-accepted pixel shows c afterwards iff it showed c before or some filtered point of the box has its offset |
| Shapes.CircleBoundary | Pong/sdl2.go:59-61 | no point of column x+r or of row y+r is visited; for r > 0 the boundary points (x-r, y) and (x, y-r) are visited (a visited point whose offset fails the guard writes nothing) |
| Shapes.CircleWrapsIntoRow | Pong/sdl2.go:58-66 | through the row wrap a pixel of row y+r can still change: a disc overhanging the right edge whose point (800, y+r-1) passes the filter colours pixel (0, y+r) when its offset passes the guard |
| Shapes.CircleWrapExample | Pong/sdl2.go:58-66 | drawCircle(796, 5, 10) on the game's buffer colours pixel (0, 15), though (0, 15) is not a visited point |
| Shapes.DrawBackground | Pong/sdl2.go:68-74 | the buffer becomes the old one painted with every point of [0, 800) x [0, 600) in row-major order |
| Shapes.BackgroundPaints | Pong/sdl2.go:68-74 | after painting the first h full rows (h = 600 for drawBackground), every pixel of them whose offset passes the guard shows c |
| Shapes.FullRowsByte | Pong/sdl2.go:68-74 | on a buffer exactly 800 pixels wide and h rows high, painting all rows sets every r, g, b byte to c except the last pixel's, and leaves every alpha byte and the last pixel's bytes as they were |
| Entities.Trunc | Pong/sdl2.go:77-78 | Go's `int(v)`: the integer part of v, truncated toward zero, for either sign |
| Entities.Half | Pong/sdl2.go:77-78 | Go's `n/2`: the quotient truncated toward zero, with remainder 0 or 1 for n >= 0 and 0 or -1 for n < 0 |
| Entities.TopLeft | Pong/sdl2.go:76-80 | the corner `(int(x) - w/2, int(y) - h/2)` centres the paddle: the truncated position lies inside the rectangle, and the rectangle extends as far right as left of it, or one pixel less |
| Entities.BeyondRowsByPosition | Pong/sdl2.go:92 | the vertical wall test `BeyondRows`, `int(y)-radius < 0 \|\| int(y)+radius > 600`, holds exactly when y < radius or y >= 601 - radius (for y >= 0, or any y when radius > 0) |
| Entities.BeyondColumnsByPosition | Pong/sdl2.go:96 | the horizontal wall test `BeyondColumns`, `int(x)-radius < 0 \|\| int(x)+radius > 800`, holds exactly when x < radius or x >= 801 - radius (for x >= 0, or any x when radius > 0) |
| Entities.Ball.constructor | Pong/sdl2.go:26-32 | a ball with the given position, radius, velocity and colour |
| Entities.Ball.Draw | Pong/sdl2.go:83-86 | the buffer is painted with the circle at `(int(x), int(y))` of the ball's radius and colour |
| Entities.Ball.Update | Pong/sdl2.go:88-99 | the position moves by the velocity; radius and colour stay; vy is negated iff `int(y)-radius < 0` or `int(y)+radius > 600` at the new y; vx likewise against 800, independently; speeds are kept |
| Entities.Paddle.constructor | Pong/sdl2.go:33-38 | a paddle with the given centre, size and colour |
| Entities.Paddle.Draw | Pong/sdl2.go:76-81 | the buffer is painted with the width x height rectangle whose top-left corner is `TopLeft` |
| Entities.Paddle.Update | Pong/sdl2.go:101-108 | "up" alone gives y-3, "down" alone y+3, both or neither leave y; only y may change |
| Entities.Paddle.AiUpdate | Pong/sdl2.go:110-112 | the paddle's y becomes the ball's y whatever it was; only y may change |

## Left out

- `main` (Pong/sdl2.go:114-162) is not part of this model. It creates the SDL window, renderer and texture, runs the event loop, polls for quit, uploads and presents the buffer, and sleeps 16 ms per frame. All of that is foreign calls and timing.
- `die` (Pong/sdl2.go:12-17) is not part of this model: it only prints and exits the process.
- The keyboard-state slice indexed by SDL scancodes is two booleans, `up` and `down`, in `Paddle.Update`.
- Entities.Trunc: models `int(...)` on exact reals. It does not model float32 rounding of positions and velocities, nor Go's implementation-defined result for a value out of int range.
- SetPixel: offsets are unbounded integers, so the model does not capture the wrap-around of `(y*800 + x)*4` in Go's `int`, which is 32 or 64 bits by platform. With 64 bits it wraps once |y| reaches about 2^63/3200, roughly 2.9e15, or |x| nears 2^61. With 32 bits it wraps from |y| of about 671089.
- DrawRectangle, DrawCircle, InDisc, Ball.Update: the model's `int` never wraps, while Go's `int` is 32 or 64 bits by platform. So the model does not capture the wrap of `x+a` and `y+b` (Pong/sdl2.go:51-52), of `x+r`, `y+r`, `r*r` and `(i-x)*(i-x)+(j-y)*(j-y)` (Pong/sdl2.go:59-61), or of `int(ball.y)+ball.radius` and `int(ball.x)+ball.radius` (Pong/sdl2.go:92, 96). At the box's corners the squared distance is 2r^2, so the filter is wrong from |r| of about 2^31, roughly 2.15e9, with 64 bits, and from |r| = 32768 with 32 bits.
- Ball–paddle collision and scoring do not exist in the source, and none is modelled.
