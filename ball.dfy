/** The ball: one step of its movement, with its bounces off the screen edges,
    the paddle and the blocks of the wall, and its reset between rounds. */
module Balls {
  import opened Geometry
  import opened Bricks
  import Paddles

  const BallRadius: int := 10

  /** `s` negated `n` times: the vertical speed after `n` block hits. */
  function Flip(s: int, n: nat): (r: int)
    ensures r == s || r == -s
    ensures Abs(r) == Abs(s)
  {
    if n == 0 then s else -Flip(s, n - 1)
  }

  /** Reversing the speed `a` times and then `b` times is reversing it `a + b` times. */
  lemma {:induction false} FlipAdd(s: int, a: nat, b: nat)
    ensures Flip(Flip(s, a), b) == Flip(s, a + b)
  {
    if b > 0 {
      FlipAdd(s, a, b - 1);
    }
  }

  /** Only the parity of the number of hits matters to the final speed. */
  lemma {:induction false} FlipParity(s: int, n: nat)
    ensures Flip(s, n) == if n % 2 == 0 then s else -s
  {
    if n > 0 {
      FlipParity(s, n - 1);
    }
  }

  /** The ball is past the left or the right edge of the screen. */
  predicate OffSide(r: Rect) {
    r.Left() < 0 || r.Right() > ScreenWidth
  }

  /** The horizontal speed after the side edges: reversed exactly when the ball is past one. */
  function SideBounce(r: Rect, sx: int): (s: int)
    ensures Abs(s) == Abs(sx)
    ensures s != sx <==> OffSide(r) && sx != 0
  {
    if OffSide(r) then -sx else sx
  }

  /** The vertical speed after the top edge: reversed exactly when the ball is past it,
      so that a ball rising past the top comes back down. */
  function TopBounce(r: Rect, sy: int): (s: int)
    ensures Abs(s) == Abs(sy)
    ensures s != sy <==> r.Top() < 0 && sy != 0
    ensures r.Top() < 0 && sy < 0 ==> s > 0
  {
    if r.Top() < 0 then -sy else sy
  }

  /** The vertical speed after the paddle: a falling ball that overlaps the
      paddle with its bottom within 5 of the paddle's top is sent back up, and
      nothing else changes the speed. */
  function PaddleBounce(ball: Rect, paddle: Rect, sy: int): (s: int)
    ensures s == sy || s == -sy
    ensures s != sy <==> Collide(ball, paddle) && Abs(ball.Bottom() - paddle.Top()) < 5 && sy > 0
    ensures s != sy ==> s < 0
  {
    if Collide(ball, paddle) && Abs(ball.Bottom() - paddle.Top()) < 5 && sy > 0 then -sy else sy
  }

  class GameBall {
    var ballRad: int
    var rect: Rect
    var speedX: int
    var speedY: int

    ghost predicate Valid()
      reads this
    {
      ballRad == BallRadius
    }

    constructor (x: int, y: int)
      ensures Valid()
      ensures rect == Rect(x - 10, y, 20, 20) && speedX == 4 && speedY == -4
    {
      ballRad := 10;
      new;
      Reset(x, y);
    }

    /** Puts the ball with its centre column at `x` and its top at `y`, moving
      up and to the right, whatever its state. */
    method Reset(x: int, y: int)
      requires Valid()
      modifies this`rect, this`speedX, this`speedY
      ensures rect == Rect(x - 10, y, 20, 20) && speedX == 4 && speedY == -4
    {
      rect := Rect(x - ballRad, y, ballRad * 2, ballRad * 2);
      speedX := 4;
      speedY := -4;
    }

    /** One step of the ball. Returns -1 when the ball has fallen past the
        bottom of the screen (the round is lost), 0 otherwise. */
    method Move(paddle: Paddles.Paddle, wall: Wall) returns (result: int)
      requires wall.Valid()
      modifies this`rect, this`speedX, this`speedY, wall`blocks
      ensures rect == old(rect).(x := old(rect.x) + old(speedX), y := old(rect.y) + old(speedY))
      ensures speedX == SideBounce(rect, old(speedX))
      ensures result == (if rect.Bottom() > ScreenHeight then -1 else 0)
      ensures result == -1 ==>
        speedY == TopBounce(rect, old(speedY)) && wall.blocks == old(wall.blocks)
      ensures result == 0 ==>
        wall.blocks == RowsAfterHit(rect, old(wall.blocks)) &&
        speedY == Flip(PaddleBounce(rect, paddle.rect, TopBounce(rect, old(speedY))),
                       WallHits(rect, old(wall.blocks)))
      ensures wall.Valid()
    {
      rect := rect.(x := rect.x + speedX);
      rect := rect.(y := rect.y + speedY);

      if rect.Left() < 0 || rect.Right() > ScreenWidth {
        speedX := speedX * -1;
      }
      if rect.Top() < 0 {
        speedY := speedY * -1;
      }
      if rect.Bottom() > ScreenHeight {
        return -1;
      }

      if Collide(rect, paddle.rect) {
        if Abs(rect.Bottom() - paddle.rect.Top()) < 5 && speedY > 0 {
          speedY := speedY * -1;
        }
      }

      assert speedY == PaddleBounce(rect, paddle.rect, TopBounce(rect, old(speedY)));
      HitWall(wall);
      return 0;
    }

    /** The ball's walk of the whole wall, row by row; the ball itself stays put. */
    method HitWall(wall: Wall)
      requires wall.Valid()
      modifies this`speedY, wall`blocks
      ensures wall.Valid()
      ensures wall.blocks == RowsAfterHit(rect, old(wall.blocks))
      ensures speedY == Flip(old(speedY), WallHits(rect, old(wall.blocks)))
    {
      ghost var rows0 := wall.blocks;
      ghost var hits: nat := 0;
      var r := 0;
      while r < |wall.blocks|
        invariant 0 <= r <= |wall.blocks| == |rows0|
        invariant forall k :: 0 <= k < r ==> wall.blocks[k] == HitRow(rect, rows0[k]).blocks
        invariant forall k :: r <= k < |rows0| ==> wall.blocks[k] == rows0[k]
        invariant hits == WallHits(rect, rows0[..r])
        invariant speedY == Flip(old(speedY), hits)
      {
        ghost var row0 := wall.blocks[r];
        var row := HitBlocks(wall.blocks[r]);
        FlipAdd(old(speedY), hits, HitRow(rect, row0).hits);
        assert rows0[..r + 1][..r] == rows0[..r];
        hits := hits + HitRow(rect, row0).hits;
        wall.blocks := wall.blocks[r := row];
        r := r + 1;
      }
      assert rows0[..r] == rows0;
      assert wall.blocks == RowsAfterHit(rect, rows0);
      WallLive(rect, rows0);
    }

    /** The ball's walk of one row of the wall: every block the walk looks at
        and the ball overlaps reverses the vertical speed and loses one unit of
        strength, and is taken out of the row when that leaves none. The row is
        walked by index and the index advances after a removal too. */
    method HitBlocks(row: seq<Block>) returns (walked: seq<Block>)
      requires DistinctRects(row)
      modifies this`speedY
      ensures walked == HitRow(rect, row).blocks
      ensures speedY == Flip(old(speedY), HitRow(rect, row).hits)
    {
      walked := row;
      ghost var rowHits: nat := 0;
      var i := 0;
      assert walked[..0] + walked[0..] == walked;
      while i < |walked|
        invariant i <= |walked| + 1
        invariant DistinctRects(walked)
        invariant Walked(rect, walked, i).blocks == HitRow(rect, row).blocks
        invariant rowHits + Walked(rect, walked, i).hits == HitRow(rect, row).hits
        invariant speedY == Flip(old(speedY), rowHits)
        decreases |walked| + 1 - i
      {
        var block := walked[i];
        if Collide(rect, block.rect) {
          speedY := speedY * -1;
          rowHits := rowHits + 1;
          WalkHit(rect, walked, i);
          block := block.(strength := block.strength - 1);
          UpdateKeepsDistinct(walked, i, block);
          walked := walked[i := block];
          if block.strength <= 0 {
            IndexOfDistinct(walked, i);
            var k := IndexOf(walked, block);
            RemoveKeepsDistinct(walked, k);
            walked := walked[..k] + walked[k + 1..];
          }
        } else {
          WalkMiss(rect, walked, i);
        }
        i := i + 1;
      }
    }
  }

  /** The state of the walk of a row about to look at index `i`: the part
      already walked followed by the walk of the rest, and the hits still to
      come. Past the end (after removing the last block) nothing is left to do. */
  ghost function Walked(ball: Rect, row: seq<Block>, i: nat): RowHit {
    if i <= |row| then RowHit(row[..i] + HitRow(ball, row[i..]).blocks, HitRow(ball, row[i..]).hits)
    else RowHit(row, 0)
  }

  /** Looking at a block the ball misses leaves the walk's outcome as it was. */
  lemma WalkMiss(ball: Rect, row: seq<Block>, i: nat)
    requires i < |row| && !Collide(ball, row[i].rect)
    ensures Walked(ball, row, i + 1) == Walked(ball, row, i)
  {
  }

  /** Hitting a block and updating the row in place, as the loop does,
      realises one hit of the walk's outcome. */
  lemma WalkHit(ball: Rect, row: seq<Block>, i: nat)
    requires i < |row| && Collide(ball, row[i].rect)
    ensures var b := row[i].(strength := row[i].strength - 1);
      var next := if b.strength <= 0 then row[..i] + row[i + 1..] else row[i := b];
      Walked(ball, next, i + 1).blocks == Walked(ball, row, i).blocks &&
      Walked(ball, next, i + 1).hits + 1 == Walked(ball, row, i).hits
  {
    var b := row[i].(strength := row[i].strength - 1);
    assert row[i..][0] == row[i] && row[i..][1..] == row[i + 1..];
    if b.strength <= 0 {
      var next := row[..i] + row[i + 1..];
      if i + 1 < |row| {
        assert row[i..][2..] == row[i + 2..] == next[i + 1..];
        assert next[..i + 1] == row[..i] + [row[i + 1]];
      } else {
        assert next == row[..i];
      }
    } else {
      var next := row[i := b];
      assert next[..i + 1] == row[..i] + [b];
      assert next[i + 1..] == row[i + 1..];
    }
  }
}
