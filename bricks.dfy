/** The breakable wall: its blocks, how it is laid out, and what one step of the
    ball does to it.

    A row of the wall is processed by the ball exactly as the game's loop does
    it: the loop walks the row by index, and when a block is exhausted it is
    removed from the row while the walk is under way. The index still advances
    after a removal, so the block that slides into the removed one's place is
    not looked at in that step. `HitRow` is the reference definition of that
    walk, written by structural recursion with the skip made explicit;
    `Visited` and `CountHits` describe the same walk index by index, and the
    lemmas below connect the two. */
module Bricks {
  import opened Geometry

  const Rows: int := 6
  const Cols: int := 6
  const BlockHeight: int := 50

  /** A block of the wall: its rectangle and how many more hits it takes. */
  datatype Block = Block(rect: Rect, strength: int)

  /** No two blocks of a row share a rectangle. */
  predicate DistinctRects(row: seq<Block>) {
    forall i, j :: 0 <= i < j < |row| ==> row[i].rect != row[j].rect
  }

  /** The invariant of every row of a wall: live blocks only, distinct rectangles. */
  predicate LiveRow(row: seq<Block>) {
    (forall i :: 0 <= i < |row| ==> row[i].strength >= 1) && DistinctRects(row)
  }

  /** The position of the first block equal to `b`: where a list removal takes `b` out. */
  function IndexOf(row: seq<Block>, b: Block): (k: nat)
    requires b in row
    ensures k < |row| && row[k] == b
    ensures forall j :: 0 <= j < k ==> row[j] != b
  {
    if row[0] == b then 0 else 1 + IndexOf(row[1..], b)
  }

  /** In a row with distinct rectangles, the first block equal to the one at
      index `i` is that one. */
  lemma IndexOfDistinct(row: seq<Block>, i: nat)
    requires i < |row| && DistinctRects(row)
    ensures IndexOf(row, row[i]) == i
  {
  }

  /** Changing a block's strength keeps the row's rectangles distinct. */
  lemma UpdateKeepsDistinct(row: seq<Block>, i: nat, b: Block)
    requires i < |row| && DistinctRects(row) && b.rect == row[i].rect
    ensures DistinctRects(row[i := b])
  {
  }

  /** Taking a block out of a row keeps the row's rectangles distinct. */
  lemma RemoveKeepsDistinct(row: seq<Block>, k: nat)
    requires k < |row| && DistinctRects(row)
    ensures DistinctRects(row[..k] + row[k + 1..])
  {
  }

  /** One more hit takes the block's strength to zero or below. */
  predicate Exhausted(b: Block) {
    b.strength - 1 <= 0
  }

  /** The ball hits the block and the block is removed from its row. */
  predicate Removed(ball: Rect, b: Block) {
    Collide(ball, b.rect) && Exhausted(b)
  }

  /** What the ball's walk leaves of a row, and how many blocks it hit. */
  datatype RowHit = RowHit(blocks: seq<Block>, hits: nat)

  /** The walk of one row by a ball at `ball`. A hit block loses one unit of
      strength; an exhausted block is removed and its successor is passed over
      unchanged. */
  function HitRow(ball: Rect, row: seq<Block>): RowHit
    decreases |row|
  {
    if row == [] then RowHit([], 0)
    else if !Collide(ball, row[0].rect) then
      var rest := HitRow(ball, row[1..]);
      RowHit([row[0]] + rest.blocks, rest.hits)
    else if !Exhausted(row[0]) then
      var rest := HitRow(ball, row[1..]);
      RowHit([row[0].(strength := row[0].strength - 1)] + rest.blocks, rest.hits + 1)
    else if |row| == 1 then
      RowHit([], 1)
    else
      var rest := HitRow(ball, row[2..]);
      RowHit([row[1]] + rest.blocks, rest.hits + 1)
  }

  /** The walk never adds blocks or counts more hits than the row has blocks,
      and every block it takes out of the row was hit. */
  lemma {:induction false} HitRowSize(ball: Rect, row: seq<Block>)
    ensures |HitRow(ball, row).blocks| <= |row| && HitRow(ball, row).hits <= |row|
    ensures |row| <= |HitRow(ball, row).blocks| + HitRow(ball, row).hits
    decreases |row|
  {
    if row == [] {
    } else if !Removed(ball, row[0]) {
      HitRowSize(ball, row[1..]);
    } else if |row| > 1 {
      HitRowSize(ball, row[2..]);
    }
  }

  /** Whether the walk looks at the block at index `k`: every block is looked
      at except the one right after a block the walk removed. */
  predicate Visited(ball: Rect, row: seq<Block>, k: nat)
    requires k < |row|
  {
    k == 0 || !(Visited(ball, row, k - 1) && Removed(ball, row[k - 1]))
  }

  /** The number of blocks among the first `n` that the walk looks at and the ball hits. */
  function CountHits(ball: Rect, row: seq<Block>, n: nat): nat
    requires n <= |row|
  {
    if n == 0 then 0
    else
      CountHits(ball, row, n - 1) +
      (if Visited(ball, row, n - 1) && Collide(ball, row[n - 1].rect) then 1 else 0)
  }

  /** From a block the walk looks at, the walk of the rest of the row starts afresh. */
  lemma {:induction false} VisitedFrom(ball: Rect, row: seq<Block>, j: nat, k: nat)
    requires j <= k < |row| && Visited(ball, row, j)
    ensures Visited(ball, row, k) == Visited(ball, row[j..], k - j)
    decreases k
  {
    if k > j {
      VisitedFrom(ball, row, j, k - 1);
      assert row[j..][k - j - 1] == row[k - 1];
    }
  }

  lemma {:induction false} CountHitsFrom(ball: Rect, row: seq<Block>, j: nat, n: nat)
    requires j <= n <= |row| && j < |row| && Visited(ball, row, j)
    ensures CountHits(ball, row, n) == CountHits(ball, row, j) + CountHits(ball, row[j..], n - j)
    decreases n
  {
    if n > j {
      CountHitsFrom(ball, row, j, n - 1);
      VisitedFrom(ball, row, j, n - 1);
      assert row[j..][n - 1 - j] == row[n - 1];
    }
  }

  /** The ball's vertical speed is negated once per block that the walk looks
      at and the ball hits, and never for a block the walk passes over. */
  lemma {:induction false} HitRowCountsVisitedHits(ball: Rect, row: seq<Block>)
    ensures HitRow(ball, row).hits == CountHits(ball, row, |row|)
    decreases |row|
  {
    if row == [] {
    } else if !Removed(ball, row[0]) {
      HitRowCountsVisitedHits(ball, row[1..]);
      if |row| > 1 {
        CountHitsFrom(ball, row, 1, |row|);
      }
    } else if |row| > 1 {
      HitRowCountsVisitedHits(ball, row[2..]);
      if |row| > 2 {
        CountHitsFrom(ball, row, 2, |row|);
      }
    }
  }

  /** Every block left by the walk comes from the row, with the same rectangle
      and at most one unit less strength: no block ever gains strength. */
  lemma {:induction false} HitRowOrigin(ball: Rect, row: seq<Block>)
    ensures forall b :: b in HitRow(ball, row).blocks ==>
      exists j :: 0 <= j < |row| && row[j].rect == b.rect && row[j].strength - 1 <= b.strength <= row[j].strength
    decreases |row|
  {
    if row == [] {
    } else if !Removed(ball, row[0]) {
      var tail := row[1..];
      HitRowOrigin(ball, tail);
      forall b | b in HitRow(ball, tail).blocks
        ensures exists j :: 0 <= j < |row| && row[j].rect == b.rect && row[j].strength - 1 <= b.strength <= row[j].strength
      {
        var j :| 0 <= j < |tail| && tail[j].rect == b.rect && tail[j].strength - 1 <= b.strength <= tail[j].strength;
        assert tail[j] == row[j + 1];
      }
    } else if |row| > 1 {
      var tail := row[2..];
      HitRowOrigin(ball, tail);
      forall b | b in HitRow(ball, tail).blocks
        ensures exists j :: 0 <= j < |row| && row[j].rect == b.rect && row[j].strength - 1 <= b.strength <= row[j].strength
      {
        var j :| 0 <= j < |tail| && tail[j].rect == b.rect && tail[j].strength - 1 <= b.strength <= tail[j].strength;
        assert tail[j] == row[j + 2];
      }
    }
  }

  /** A block the walk passes over or the ball misses is left as it is; a block
      the walk looks at and the ball hits, and that survives the hit, is left
      with exactly one unit less strength. */
  lemma {:induction false} HitRowVisitedBlock(ball: Rect, row: seq<Block>, k: nat)
    requires k < |row|
    ensures !Visited(ball, row, k) || !Collide(ball, row[k].rect) ==> row[k] in HitRow(ball, row).blocks
    ensures Visited(ball, row, k) && Collide(ball, row[k].rect) && !Exhausted(row[k]) ==>
      row[k].(strength := row[k].strength - 1) in HitRow(ball, row).blocks
    decreases |row|
  {
    if k > 0 {
      if !Removed(ball, row[0]) {
        VisitedFrom(ball, row, 1, k);
        HitRowVisitedBlock(ball, row[1..], k - 1);
        assert row[1..][k - 1] == row[k];
      } else {
        assert HitRow(ball, row).blocks == [row[1]] + HitRow(ball, row[2..]).blocks;
        assert Visited(ball, row, 0) && !Visited(ball, row, 1);
        if k > 1 {
          VisitedFrom(ball, row, 2, k);
          HitRowVisitedBlock(ball, row[2..], k - 2);
          assert row[2..][k - 2] == row[k];
        }
      }
    }
  }

  /** In a row with distinct rectangles, a block the walk looks at, that the
      ball hits and that the hit exhausts, is gone from the row. */
  lemma {:induction false} HitRowRemovesExhausted(ball: Rect, row: seq<Block>, k: nat)
    requires k < |row| && DistinctRects(row)
    requires Visited(ball, row, k) && Removed(ball, row[k])
    ensures forall b :: b in HitRow(ball, row).blocks ==> b.rect != row[k].rect
    decreases |row|
  {
    if k == 0 {
      if |row| > 1 {
        var tail := row[2..];
        HitRowOrigin(ball, tail);
        forall b | b in HitRow(ball, tail).blocks
          ensures b.rect != row[0].rect
        {
          var j :| 0 <= j < |tail| && tail[j].rect == b.rect && tail[j].strength - 1 <= b.strength <= tail[j].strength;
          assert tail[j] == row[j + 2];
        }
      }
    } else if !Removed(ball, row[0]) {
      VisitedFrom(ball, row, 1, k);
      HitRowRemovesExhausted(ball, row[1..], k - 1);
      assert row[1..][k - 1] == row[k];
    } else if k > 1 {
      VisitedFrom(ball, row, 2, k);
      HitRowRemovesExhausted(ball, row[2..], k - 2);
      assert row[2..][k - 2] == row[k];
    }
  }

  /** Putting a block in front of a live row whose rectangles all come from
      `source`, which does not hold the block's rectangle, keeps the row live. */
  lemma ConsLive(h: Block, rest: seq<Block>, source: seq<Block>)
    requires h.strength >= 1 && LiveRow(rest)
    requires forall b :: b in rest ==> exists j :: 0 <= j < |source| && source[j].rect == b.rect
    requires forall j :: 0 <= j < |source| ==> source[j].rect != h.rect
    ensures LiveRow([h] + rest)
  {
  }

  /** The walk keeps a row live: every block left has strength at least one,
      and rectangles stay distinct. */
  lemma {:induction false} HitRowLive(ball: Rect, row: seq<Block>)
    requires LiveRow(row)
    ensures LiveRow(HitRow(ball, row).blocks)
    decreases |row|
  {
    if row == [] {
    } else if !Removed(ball, row[0]) {
      var tail := row[1..];
      HitRowLive(ball, tail);
      HitRowOrigin(ball, tail);
      var h := HitRow(ball, row).blocks[0];
      assert h.rect == row[0].rect;
      ConsLive(h, HitRow(ball, tail).blocks, tail);
    } else if |row| > 1 {
      var tail := row[2..];
      HitRowLive(ball, tail);
      HitRowOrigin(ball, tail);
      ConsLive(row[1], HitRow(ball, tail).blocks, tail);
    }
  }

  /** The walk hits nothing exactly when the ball overlaps no block of the row,
      and then it leaves the row as it was. */
  lemma {:induction false} HitRowMiss(ball: Rect, row: seq<Block>)
    ensures HitRow(ball, row).hits == 0 <==> forall k :: 0 <= k < |row| ==> !Collide(ball, row[k].rect)
    ensures HitRow(ball, row).hits == 0 ==> HitRow(ball, row).blocks == row
    decreases |row|
  {
    if row != [] {
      HitRowMiss(ball, row[1..]);
      if !Collide(ball, row[0].rect) {
        assert row == [row[0]] + row[1..];
        forall k | 1 <= k < |row| ensures row[k] == row[1..][k - 1] { }
      }
    }
  }

  /** Two neighbouring blocks both under the ball, anywhere in the row, the
      first one looked at and exhausted by the hit: the first is removed, and
      the second, which takes its place in the row, is passed over, adds no
      hit and keeps its strength although the ball overlaps it. */
  lemma SkipAfterRemoval(ball: Rect, row: seq<Block>, k: nat)
    requires k + 1 < |row| && Visited(ball, row, k) && Removed(ball, row[k])
    requires Collide(ball, row[k + 1].rect)
    ensures !Visited(ball, row, k + 1)
    ensures CountHits(ball, row, k + 2) == CountHits(ball, row, k + 1)
    ensures row[k + 1] in HitRow(ball, row).blocks
  {
    HitRowVisitedBlock(ball, row, k + 1);
  }

  /** The rows of the wall after the ball's walk of each of them: the wall
      keeps its rows, and no row gains blocks. */
  function RowsAfterHit(ball: Rect, rows: seq<seq<Block>>): (after: seq<seq<Block>>)
    ensures |after| == |rows|
    ensures forall k :: 0 <= k < |rows| ==> |after[k]| <= |rows[k]|
  {
    var after := seq(|rows|, k requires 0 <= k < |rows| => HitRow(ball, rows[k]).blocks);
    assert forall k :: 0 <= k < |rows| ==> |after[k]| <= |rows[k]| by {
      forall k | 0 <= k < |rows| ensures |after[k]| <= |rows[k]| {
        HitRowSize(ball, rows[k]);
      }
    }
    after
  }

  /** How many blocks of the wall the ball's walk hits, over all rows: at
      least the hits of any one row. */
  function WallHits(ball: Rect, rows: seq<seq<Block>>): (hits: nat)
    ensures forall k :: 0 <= k < |rows| ==> HitRow(ball, rows[k]).hits <= hits
  {
    if rows == [] then 0
    else WallHits(ball, rows[..|rows| - 1]) + HitRow(ball, rows[|rows| - 1]).hits
  }

  /** The walk keeps every row of the wall live. */
  lemma WallLive(ball: Rect, rows: seq<seq<Block>>)
    requires forall k :: 0 <= k < |rows| ==> LiveRow(rows[k])
    ensures forall k :: 0 <= k < |rows| ==> LiveRow(RowsAfterHit(ball, rows)[k])
  {
    forall k | 0 <= k < |rows| ensures LiveRow(RowsAfterHit(ball, rows)[k]) {
      HitRowLive(ball, rows[k]);
    }
  }

  /** The walk of the wall hits nothing exactly when the ball overlaps no block,
      and then the wall is unchanged. */
  lemma {:induction false} WallMiss(ball: Rect, rows: seq<seq<Block>>)
    ensures WallHits(ball, rows) == 0 <==>
      forall r, k :: 0 <= r < |rows| && 0 <= k < |rows[r]| ==> !Collide(ball, rows[r][k].rect)
    ensures WallHits(ball, rows) == 0 ==> RowsAfterHit(ball, rows) == rows
    decreases |rows|
  {
    if rows != [] {
      var init := rows[..|rows| - 1];
      WallMiss(ball, init);
      HitRowMiss(ball, rows[|rows| - 1]);
      if WallHits(ball, rows) == 0 {
        forall r | 0 <= r < |rows| ensures RowsAfterHit(ball, rows)[r] == rows[r] {
          if r < |rows| - 1 {
            assert init[r] == rows[r];
            assert RowsAfterHit(ball, init)[r] == init[r];
          }
        }
      }
    }
  }

  /** The wall of blocks. `width` and `height` are the size of a block. */
  class Wall {
    var width: int
    var height: int
    var blocks: seq<seq<Block>>

    ghost predicate Valid()
      reads this
    {
      width == ScreenWidth / Cols && height == BlockHeight &&
      forall r :: 0 <= r < |blocks| ==> LiveRow(blocks[r])
    }

    /** A wall whose blocks have not been laid yet. */
    constructor ()
      ensures Valid() && blocks == []
    {
      width := ScreenWidth / Cols;
      height := BlockHeight;
      blocks := [];
    }

    /** Lays a fresh grid of `Rows` rows of `Cols` blocks, strongest at the top. */
    method CreateWall()
      requires Valid()
      modifies this`blocks
      ensures Valid()
      ensures |blocks| == Rows
      ensures forall r :: 0 <= r < Rows ==> |blocks[r]| == Cols
      ensures forall r, c :: 0 <= r < Rows && 0 <= c < Cols ==>
        blocks[r][c].rect == Rect(c * width, r * height, width, height)
      ensures forall r, c :: 0 <= r < Rows && 0 <= c < Cols ==>
        blocks[r][c].strength == (if r < 2 then 3 else if r < 4 then 2 else 1)
    {
      blocks := [];
      var row := 0;
      while row < Rows
        invariant 0 <= row <= Rows && |blocks| == row
        invariant forall r :: 0 <= r < row ==> |blocks[r]| == Cols && LiveRow(blocks[r])
        invariant forall r, c :: 0 <= r < row && 0 <= c < Cols ==>
          blocks[r][c].rect == Rect(c * width, r * height, width, height)
        invariant forall r, c :: 0 <= r < row && 0 <= c < Cols ==>
          blocks[r][c].strength == (if r < 2 then 3 else if r < 4 then 2 else 1)
      {
        var blockRow := [];
        var col := 0;
        while col < Cols
          invariant 0 <= col <= Cols && |blockRow| == col
          invariant forall c :: 0 <= c < col ==>
            blockRow[c] == Block(Rect(c * width, row * height, width, height),
                                 if row < 2 then 3 else if row < 4 then 2 else 1)
        {
          var blockX := col * width;
          var blockY := row * height;
          var rect := Rect(blockX, blockY, width, height);
          var strength := if row < 2 then 3 else if row < 4 then 2 else 1;
          blockRow := blockRow + [Block(rect, strength)];
          col := col + 1;
        }
        blocks := blocks + [blockRow];
        row := row + 1;
      }
    }
  }
}
