/** Screen constants and the rectangle geometry the game objects share.

    The game uses pygame rectangles. Only the part of them the game relies on is
    modelled: a rectangle is its top-left corner and its size, its edges are
    derived from those, and two rectangles collide when they overlap strictly on
    both axes (rectangles that merely touch do not collide). */
module Geometry {

  const ScreenWidth: int := 600
  const ScreenHeight: int := 600

  /** A rectangle with top-left corner (x, y), width w and height h. */
  datatype Rect = Rect(x: int, y: int, w: int, h: int) {
    function Left(): int { x }
    function Right(): int { x + w }
    function Top(): int { y }
    function Bottom(): int { y + h }
  }

  /** The pixel (px, py) lies in `r`: the left and top edges belong to the
      rectangle, the right and bottom edges do not. */
  predicate Covers(r: Rect, px: int, py: int) {
    r.Left() <= px < r.Right() && r.Top() <= py < r.Bottom()
  }

  /** Strict overlap on both axes: the model of pygame's colliderect. Two
      rectangles of positive size collide exactly when some pixel lies in
      both; the pixel at the larger of the two left edges and the larger of
      the two top edges is then one. */
  predicate Collide(a: Rect, b: Rect): (c: bool)
    ensures c && a.w > 0 && a.h > 0 && b.w > 0 && b.h > 0 ==>
      Covers(a, Max(a.x, b.x), Max(a.y, b.y)) && Covers(b, Max(a.x, b.x), Max(a.y, b.y))
    ensures !c ==> forall px, py :: Covers(a, px, py) ==> !Covers(b, px, py)
  {
    a.Left() < b.Right() && b.Left() < a.Right() &&
    a.Top() < b.Bottom() && b.Top() < a.Bottom()
  }

  function Abs(n: int): nat {
    if n < 0 then -n else n
  }

  function Min(a: int, b: int): int {
    if a <= b then a else b
  }

  function Max(a: int, b: int): int {
    if a >= b then a else b
  }
}
