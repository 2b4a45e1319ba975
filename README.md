# Breakout game objects

A model of the game logic of a Breakout game whose paddle is steered by a
webcam object tracker. The model covers the game objects and one tick of the
game loop:

- the **wall** (`Bricks.Wall`): a 6×6 grid of blocks, each a rectangle and a
  strength. The top two rows have strength 3, the next two 2 and the bottom two 1;
- the **paddle** (`Paddles.Paddle`): a 100×20 rectangle whose left edge is the
  tracked x position minus half the paddle's width, clamped to the screen. Its
  start position `x`, `y` is kept apart from `rect`: `MoveTo` moves `rect` only,
  and the ball is always reset above the start position, never above the
  tracked one;
- the **ball** (`Balls.GameBall`): a 20×20 rectangle with a speed. One step
  (`Move`) adds the speed to the position. It then reverses the horizontal speed
  past a side edge and the vertical speed past the top edge. It reports the
  round lost (-1) past the bottom edge, without looking at the paddle or the
  wall. Otherwise it bounces a falling ball off the paddle's top and walks the
  wall;
- the **round** (`Rounds.Game`): while no round is live the ball is reset every
  tick; a mouse click makes the round live; a lost ball ends it.

All values are whole numbers; the screen is 600×600.

The wall walk is modelled as the game does it. Every row is walked by index.
A block the ball overlaps reverses the vertical speed and loses one unit of
strength. A block left with no strength is removed from the row during the
walk, and the index still advances. The block that moves into the removed
block's place is therefore not looked at in that step, even when the ball
overlaps it (`Bricks.SkipAfterRemoval`). `Bricks.HitRow` is the reference
definition of one row's walk. `Bricks.Visited` and `Bricks.CountHits` describe
the same walk block by block. The lemmas in `Bricks` prove what the walk does
to each block, and `Balls.GameBall.HitBlocks` is the loop proved against
`HitRow`.

Python's `list.remove` takes out the first element equal to the block. The
model does the same (`Bricks.IndexOf`). The wall invariant (`Wall.Valid`:
every row holds blocks of strength at least 1 with pairwise distinct
rectangles) makes that element the one at the current index. `create_wall`
establishes the invariant and every ball step preserves it.

Three behaviours of the game are easy to miss:

- the walk passes over the block after a removed one, so not every block
  under the ball is hit in a step (`Bricks.SkipAfterRemoval`);
- the vertical speed reverses once per block hit, besides the top edge and the
  paddle, so two hits in one step cancel out (`Balls.FlipParity`);
- a click in the very tick the ball is lost makes the round live again at once,
  without the ball being reset first (`Rounds.RoundNext`).

Assumptions about the graphics library, whose code is not part of this model:
a rectangle's edges are `left = x`, `right = x + w`, `top = y`,
`bottom = y + h`. Two rectangles collide when they overlap strictly on both
axes (`Geometry.Collide`). Rectangles are values; the game never shares one
rectangle between two objects.

## Model

| member | source | states |
|---|---|---|
| `Geometry.Collide` | breakout_with_camera_control.py:106-113 | `colliderect` as the game uses it at lines 106 and 113: when two rectangles of positive size collide, the pixel at the larger left edge and larger top edge lies in both; when they do not, no pixel lies in both |
| `Bricks.Wall.constructor` | breakout_with_camera_control.py:42-44 | blocks are 100 wide (screen width over the column count) and 50 high; no blocks yet |
| `Bricks.Wall.CreateWall` | breakout_with_camera_control.py:46-56 | exactly 6 rows of 6 blocks; block (r, c) has rect (c·width, r·height, width, height) and strength 3 for rows 0-1, 2 for rows 2-3, 1 below; the wall invariant holds |
| `Bricks.IndexOf` | breakout_with_camera_control.py:118 | `row.remove(block)` takes out the first block equal to `block`: the index returned holds it and no earlier index does |
| `Bricks.IndexOfDistinct` | breakout_with_camera_control.py:116-118 | in a row with distinct rectangles, `row.remove(block)` takes out the block at the current index of the walk |
| `Bricks.HitRow` | breakout_with_camera_control.py:112-118 | the reference walk of one row, characterised by `HitRowSize`, `HitRowCountsVisitedHits`, `HitRowOrigin`, `HitRowVisitedBlock`, `HitRowRemovesExhausted`, `HitRowLive`, `HitRowMiss` and `SkipAfterRemoval` below |
| `Bricks.HitRowSize` | breakout_with_camera_control.py:112-118 | the walk never leaves more blocks than the row had nor counts more hits than it has blocks, and every block it takes out was hit |
| `Bricks.VisitedFrom` | breakout_with_camera_control.py:111-118 | from any block the walk looks at, the walk of the rest of the row proceeds as a fresh walk of that rest |
| `Bricks.CountHitsFrom` | breakout_with_camera_control.py:111-118 | the hits of the walk split at any block the walk looks at |
| `Bricks.HitRowCountsVisitedHits` | breakout_with_camera_control.py:113-115 | the number of speed reversals in a row equals the number of blocks the walk looks at and the ball overlaps |
| `Bricks.HitRowOrigin` | breakout_with_camera_control.py:113-118 | every block left in a row comes from the row with the same rectangle and at most one unit less strength: no block gains strength |
| `Bricks.HitRowVisitedBlock` | breakout_with_camera_control.py:112-117 | a block the ball misses, or that the walk passes over, stays unchanged; a looked-at, hit block that survives stays with exactly one unit less strength |
| `Bricks.HitRowRemovesExhausted` | breakout_with_camera_control.py:116-118 | a looked-at, hit block whose strength drops to 0 or below is gone from the row |
| `Bricks.HitRowLive` | breakout_with_camera_control.py:116-118 | after the walk every block of the row still has strength at least 1 and rectangles stay distinct |
| `Bricks.HitRowMiss` | breakout_with_camera_control.py:111-118 | a row walk hits nothing exactly when the ball overlaps no block of the row, and then the row is unchanged |
| `Bricks.SkipAfterRemoval` | breakout_with_camera_control.py:112-118 | anywhere in a row, when a looked-at block under the ball is removed, the next block is not looked at: although the ball overlaps it, it adds no hit and stays in the row unchanged |
| `Bricks.RowsAfterHit` | breakout_with_camera_control.py:111-118 | the wall after the ball's walk keeps its number of rows, and no row gains blocks |
| `Bricks.WallHits` | breakout_with_camera_control.py:111-118 | the hits over the whole wall are at least the hits of any one row |
| `Bricks.WallLive` | breakout_with_camera_control.py:111-118 | the walk of the wall keeps every row live |
| `Bricks.WallMiss` | breakout_with_camera_control.py:111-118 | the wall walk hits nothing exactly when the ball overlaps no block of any row, and then the wall is unchanged |
| `Paddles.PaddleLeft` | breakout_with_camera_control.py:74 | the paddle's left edge lies in [0, 500]; it is the target minus 50 whenever that is in range, 0 below the range and 500 above it |
| `Paddles.Paddle.constructor` | breakout_with_camera_control.py:67-71 | the paddle is 100×20 and starts at rect (250, 560, 100, 20) |
| `Paddles.Paddle.MoveTo` | breakout_with_camera_control.py:73-74 | only `rect.x` changes, to the clamped left edge; `x`, `y`, width, height and the rest of `rect` are unchanged; the paddle stays on screen |
| `Paddles.Paddle.Reset` | breakout_with_camera_control.py:80-83 | whatever the prior state, x = 250, y = 560 and rect = (250, 560, 100, 20) |
| `Balls.Flip` | breakout_with_camera_control.py:115 | repeated `speed_y *= -1`: the speed after any number of reversals has the same size and is the original or its negation |
| `Balls.FlipAdd` | breakout_with_camera_control.py:115 | reversing the speed a times then b times is reversing it a + b times |
| `Balls.FlipParity` | breakout_with_camera_control.py:115 | after n block hits the vertical speed is the original when n is even and its negation when n is odd |
| `Balls.SideBounce` | breakout_with_camera_control.py:96-97 | the horizontal speed keeps its size and changes exactly when the ball is past the left or right edge (and is not 0) |
| `Balls.TopBounce` | breakout_with_camera_control.py:99-100 | the vertical speed keeps its size and changes exactly when the ball is past the top edge; a rising ball past the top comes back down |
| `Balls.PaddleBounce` | breakout_with_camera_control.py:105-108 | the vertical speed changes only, and exactly, when the ball overlaps the paddle, its bottom is within 5 of the paddle's top and it is falling; the ball then moves up |
| `Balls.GameBall.constructor` | breakout_with_camera_control.py:87-89 | the ball's radius is 10 and it starts at rect (x−10, y, 20, 20) with speed (4, −4) |
| `Balls.GameBall.Reset` | breakout_with_camera_control.py:125-128 | whatever the prior state, rect = (x−10, y, 20, 20) and speed = (4, −4) |
| `Balls.GameBall.Move` | breakout_with_camera_control.py:91-119 | position advanced by the old speed; side and top bounces as stated; result −1 exactly when the new bottom is past 600, with the wall unchanged, else 0 with the paddle bounce and the wall walk applied; the wall invariant is kept |
| `Balls.GameBall.HitWall` | breakout_with_camera_control.py:111-118 | every row of the wall is replaced by its walk and the vertical speed is reversed once per hit over the whole wall |
| `Balls.GameBall.HitBlocks` | breakout_with_camera_control.py:112-118 | the in-place index loop with removal leaves exactly the row `HitRow` describes and reverses the vertical speed once per hit |
| `Balls.WalkMiss` | breakout_with_camera_control.py:113 | looking at a block the ball misses leaves the rest of the walk's outcome unchanged |
| `Balls.WalkHit` | breakout_with_camera_control.py:113-118 | decrementing a hit block in place, and removing it at its index when exhausted, realises one hit of the walk's outcome |
| `Rounds.RoundNext` | breakout_with_camera_control.py:165-177 | a round that is not live becomes live exactly on a click; a live round stays live while the ball step returns 0; after a lost ball it is live again exactly when a click arrived in the same tick |
| `Rounds.Game.constructor` | breakout_with_camera_control.py:130-134 | freshly allocated wall, paddle and ball; a freshly laid wall of 6 rows of 6 blocks, block (r, c) with rect (c·100, r·50, 100, 50) and strength 3, 2 or 1 by row band as `create_wall` lays it; the paddle at (250, 560, 100, 20), the ball at (290, 540, 20, 20) with speed (4, −4), no live round |
| `Rounds.Game.Tick` | breakout_with_camera_control.py:147-177 | the paddle moves to the clamped target when there is one; when not live the ball is reset to (290, 540, 20, 20) with speed (4, −4) whatever the paddle's tracked position, and the wall is untouched; when live the ball steps; liveness afterwards is `RoundNext` of the step's result and the events |

## Left out

- The object tracker (`tracking.py`): camera capture, the region-of-interest selection, the colour histogram and its back-projection, and the CamShift search. These are calls into a vision library with floating-point geometry. `Rounds.Game.Tick` takes their outcome as an optional target x.
- All drawing and display: the wall, paddle, ball and text drawing, the camera preview, and the window updates. The colours and the font are left out too.
- The main loop's input/output: the frame clock, camera reads and the exit on a failed read, the quit event and the `q` key, the `r` key's new region selection, and the release of resources.
- `Rounds.Game.Tick`: in a tick where the ball is not live it returns 0. The source keeps the previous game-over value, which is not read again in such a tick.
- `Rounds.Game.Tick`: in a live tick it states the ball's new position and the step's result but not the new speeds and wall; `Balls.GameBall.Move` states those.
- The graphics library's rectangle internals: 32-bit coordinates, rectangles of zero or negative size, and its other operations. The game only uses positive sizes and small coordinates.
- Update in place of the row lists: the model builds each row's new list and stores it once the row's walk ends. Nothing reads the row in between, so the outcome is the same. Blocks are values, so the aliasing of block lists is not modelled.
- The wall is never laid again after a lost ball. This behaviour is modelled as it is: only `Rounds.Game.constructor` lays the wall.
