/** The game objects together and one tick of the game: the paddle follows the
    tracked position, the ball moves while a round is live and waits above the
    paddle otherwise, and a mouse click starts a round. */
module Rounds {
  import opened Geometry
  import Bricks
  import Paddles
  import Balls

  datatype Option<T> = None | Some(value: T)

  /** The input events the round logic reacts to; every other kind is `OtherEvent`. */
  datatype Event = MouseButtonDown | OtherEvent

  /** Whether a round is live after a tick that started with `live`, in which
      the ball's step (if it moved) returned `moveResult` and `events` arrived.
      A round that is not live starts only on a click; a live round stays live
      until the ball's step reports the ball lost; a click in the very tick the
      ball is lost starts the next round at once. */
  function RoundNext(live: bool, moveResult: int, events: seq<Event>): (next: bool)
    ensures !live ==> (next <==> MouseButtonDown in events)
    ensures live && moveResult == 0 ==> next
    ensures live && moveResult != 0 ==> (next <==> MouseButtonDown in events)
  {
    (live && moveResult == 0) || MouseButtonDown in events
  }

  class Game {
    const wall: Bricks.Wall
    const paddle: Paddles.Paddle
    const ball: Balls.GameBall
    var live: bool

    ghost predicate Valid()
      reads this, wall, paddle, ball
    {
      wall.Valid() && paddle.Valid() && ball.Valid()
    }

    /** A fresh wall, the paddle at its start and the ball resting on it; no round is live. */
    constructor ()
      ensures Valid() && !live
      ensures fresh(wall) && fresh(paddle) && fresh(ball)
      ensures |wall.blocks| == Bricks.Rows
      ensures forall r :: 0 <= r < Bricks.Rows ==> |wall.blocks[r]| == Bricks.Cols
      ensures forall r, c :: 0 <= r < Bricks.Rows && 0 <= c < Bricks.Cols ==>
        wall.blocks[r][c].rect == Rect(c * 100, r * 50, 100, 50)
      ensures forall r, c :: 0 <= r < Bricks.Rows && 0 <= c < Bricks.Cols ==>
        wall.blocks[r][c].strength == (if r < 2 then 3 else if r < 4 then 2 else 1)
      ensures paddle.rect == Rect(250, 560, 100, 20)
      ensures ball.rect == Rect(290, 540, 20, 20) && ball.speedX == 4 && ball.speedY == -4
    {
      var w := new Bricks.Wall();
      w.CreateWall();
      var p := new Paddles.Paddle();
      var b := new Balls.GameBall(p.x + p.width / 2, p.y - p.height);
      wall := w;
      paddle := p;
      ball := b;
      live := false;
    }

    /** One tick of the game. `target` is the tracked x position, if there is
        one; `events` are the input events of the tick. Returns the ball step's
        result when the round was live, and 0 when the ball did not move. */
    method Tick(target: Option<int>, events: seq<Event>) returns (gameOver: int)
      requires Valid()
      modifies this`live, paddle`rect, ball`rect, ball`speedX, ball`speedY, wall`blocks
      ensures Valid()
      ensures paddle.rect == if target.Some? then old(paddle.rect).(x := Paddles.PaddleLeft(target.value))
                             else old(paddle.rect)
      ensures !old(live) ==>
        gameOver == 0 && wall.blocks == old(wall.blocks) &&
        ball.rect == Rect(290, 540, 20, 20) && ball.speedX == 4 && ball.speedY == -4
      ensures old(live) ==>
        ball.rect == old(ball.rect).(x := old(ball.rect.x) + old(ball.speedX), y := old(ball.rect.y) + old(ball.speedY)) &&
        gameOver == (if ball.rect.Bottom() > ScreenHeight then -1 else 0)
      ensures live == RoundNext(old(live), gameOver, events)
    {
      if target.Some? {
        paddle.MoveTo(target.value);
      }

      gameOver := 0;
      if live {
        gameOver := ball.Move(paddle, wall);
        if gameOver != 0 {
          live := false;
        }
      } else {
        ball.Reset(paddle.x + paddle.width / 2, paddle.y - paddle.height);
      }

      ghost var liveAfterBall := live;
      var i := 0;
      while i < |events|
        modifies this`live
        invariant 0 <= i <= |events|
        invariant live == (liveAfterBall || MouseButtonDown in events[..i])
      {
        assert events[..i + 1] == events[..i] + [events[i]];
        if events[i] == MouseButtonDown && !live {
          live := true;
        }
        i := i + 1;
      }
      assert events[..i] == events;
    }
  }
}
