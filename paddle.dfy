/** The paddle at the bottom of the screen, steered by the tracked x position. */
module Paddles {
  import opened Geometry
  import Bricks

  const PaddleWidth: int := ScreenWidth / Bricks.Cols
  const PaddleHeight: int := 20

  /** The left edge of a paddle centred on `target`, clamped so that the whole
      paddle stays on the screen. */
  function PaddleLeft(target: int): (left: int)
    ensures 0 <= left <= ScreenWidth - PaddleWidth
    ensures 0 <= target - PaddleWidth / 2 <= ScreenWidth - PaddleWidth ==> left == target - PaddleWidth / 2
    ensures target - PaddleWidth / 2 < 0 ==> left == 0
    ensures target - PaddleWidth / 2 > ScreenWidth - PaddleWidth ==> left == ScreenWidth - PaddleWidth
  {
    Max(0, Min(ScreenWidth - PaddleWidth, target - PaddleWidth / 2))
  }

  /** `x` and `y` are the start position, set only by Reset; MoveTo moves
      `rect` alone. */
  class Paddle {
    var width: int
    var height: int
    var x: int
    var y: int
    var rect: Rect

    ghost predicate Valid()
      reads this
    {
      width == PaddleWidth && height == PaddleHeight &&
      x == ScreenWidth / 2 - width / 2 && y == ScreenHeight - height * 2 &&
      rect.y == y && rect.w == width && rect.h == height &&
      0 <= rect.x <= ScreenWidth - width
    }

    constructor ()
      ensures Valid()
      ensures x == 250 && y == 560 && rect == Rect(250, 560, 100, 20)
    {
      width := ScreenWidth / Bricks.Cols;
      height := 20;
      new;
      Reset();
    }

    /** Centres the paddle on `target`, as far as the screen allows. */
    method MoveTo(target: int)
      requires Valid()
      modifies this`rect
      ensures Valid()
      ensures rect == old(rect).(x := PaddleLeft(target))
    {
      rect := rect.(x := Max(0, Min(ScreenWidth - width, target - width / 2)));
    }

    /** Puts the paddle back at its start position, whatever its state. */
    method Reset()
      requires width == PaddleWidth && height == PaddleHeight
      modifies this`x, this`y, this`rect
      ensures Valid()
      ensures x == 250 && y == 560 && rect == Rect(250, 560, 100, 20)
    {
      x := ScreenWidth / 2 - width / 2;
      y := ScreenHeight - height * 2;
      rect := Rect(x, y, width, height);
    }
  }
}
