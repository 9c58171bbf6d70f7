/** The `MoveDirection` enumeration shared by the puzzle view and the view controller. */
module Directions {

  /** The four ways a tile can slide. */
  datatype MoveDirection = Up | Down | Left | Right {

    /** `isHorizontal()`: left or right. */
    predicate IsHorizontal() {
      this == Left || this == Right
    }

    /** `isVertical()`: up or down. */
    predicate IsVertical() {
      this == Up || this == Down
    }
  }

  function Abs(x: real): (r: real)
    ensures r >= 0.0 && (r == x || r == -x)
  {
    if x < 0.0 then -x else x
  }

  /** `MoveDirection.from(vector:)`: the dominant axis of a displacement picks the direction;
      a tie (the zero vector included) goes to the vertical branch. */
  function From(dx: real, dy: real): (r: MoveDirection)
    ensures r.IsHorizontal() <==> Abs(dx) > Abs(dy)
    ensures r == Right <==> Abs(dx) > Abs(dy) && dx > 0.0
    ensures r == Left <==> Abs(dx) > Abs(dy) && dx <= 0.0
    ensures r == Down <==> Abs(dx) <= Abs(dy) && dy > 0.0
    ensures r == Up <==> Abs(dx) <= Abs(dy) && dy <= 0.0
  {
    if Abs(dx) > Abs(dy) then
      (if dx > 0.0 then Right else Left)
    else
      (if dy > 0.0 then Down else Up)
  }

  /** Every direction is exactly one of horizontal and vertical. */
  lemma AxesPartition(d: MoveDirection)
    ensures d.IsHorizontal() != d.IsVertical()
    ensures d.IsHorizontal() <==> d in {Left, Right}
    ensures d.IsVertical() <==> d in {Up, Down}
  {
  }

  /** Ties and the zero vector resolve vertically; the zero vector resolves to `Up`. */
  lemma TiesResolveVertically(dx: real, dy: real)
    requires Abs(dx) == Abs(dy)
    ensures From(dx, dy).IsVertical()
    ensures dx == 0.0 && dy == 0.0 ==> From(dx, dy) == Up
  {
  }
}
