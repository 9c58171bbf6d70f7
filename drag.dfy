/** The geometry of one drag: the clamp that `moveSelectedCell` applies to the gesture's
    translation, and the rule by which `endMoving` decides to complete the move. Points are
    the view's coordinates, with y growing downwards. */
module Drag {
  import opened Optional
  import opened Directions
  import opened Grid

  /** The states of the pan gesture recognizer; `Other` stands for the ones the gesture
      handlers ignore. */
  datatype GestureState = Began | Changed | Ended | Cancelled | Other

  datatype Point = Point(x: real, y: real)

  /** What the gesture code reads from a cell view: its centre and its frame size. */
  datatype Cell = Cell(centre: Point, width: real, height: real)

  function Sub(a: Point, b: Point): Point {
    Point(a.x - b.x, a.y - b.y)
  }

  function Min(a: real, b: real): real {
    if a <= b then a else b
  }

  function Max(a: real, b: real): real {
    if a <= b then b else a
  }

  /** The clamp of one coordinate of the translation, where `diff` is the target cell's centre
      minus the moving cell's centre on that axis: the tile may travel towards the empty
      slot, never past it and never away from it. */
  function ClampAxis(t: real, diff: real): (r: real)
    ensures Min(diff, 0.0) <= r <= Max(diff, 0.0)
    ensures Min(diff, 0.0) <= t <= Max(diff, 0.0) ==> r == t
    ensures t < Min(diff, 0.0) ==> r == Min(diff, 0.0)
    ensures t > Max(diff, 0.0) ==> r == Max(diff, 0.0)
  {
    var lowest := if diff > 0.0 then 0.0 else diff;
    var highest := if diff > 0.0 then diff else 0.0;
    if t < lowest then lowest else if t > highest then highest else t
  }

  /** Clamping a clamped value changes nothing. */
  lemma ClampIdempotent(t: real, diff: real)
    ensures ClampAxis(ClampAxis(t, diff), diff) == ClampAxis(t, diff)
  {
  }

  /** The translation handed back to the recognizer: the coordinate on the axis of `d`
      clamped, the other one as it came. */
  function Restrict(raw: Point, d: MoveDirection, diff: Point): (r: Point)
    ensures d.IsHorizontal() ==> r.y == raw.y && Min(diff.x, 0.0) <= r.x <= Max(diff.x, 0.0)
    ensures d.IsVertical() ==> r.x == raw.x && Min(diff.y, 0.0) <= r.y <= Max(diff.y, 0.0)
    ensures d.IsHorizontal() && Min(diff.x, 0.0) <= raw.x <= Max(diff.x, 0.0) ==> r == raw
    ensures d.IsVertical() && Min(diff.y, 0.0) <= raw.y <= Max(diff.y, 0.0) ==> r == raw
    ensures d.IsHorizontal() && raw.x < Min(diff.x, 0.0) ==> r.x == Min(diff.x, 0.0)
    ensures d.IsHorizontal() && raw.x > Max(diff.x, 0.0) ==> r.x == Max(diff.x, 0.0)
    ensures d.IsVertical() && raw.y < Min(diff.y, 0.0) ==> r.y == Min(diff.y, 0.0)
    ensures d.IsVertical() && raw.y > Max(diff.y, 0.0) ==> r.y == Max(diff.y, 0.0)
  {
    if d.IsHorizontal() then raw.(x := ClampAxis(raw.x, diff.x))
    else raw.(y := ClampAxis(raw.y, diff.y))
  }

  /** The snapshot's new centre: the moving cell's centre shifted on the axis of `d` only. */
  function Dragged(centre: Point, d: MoveDirection, translation: Point): (p: Point)
    ensures Sub(p, centre) == if d.IsHorizontal() then Point(translation.x, 0.0) else Point(0.0, translation.y)
  {
    if d.IsHorizontal() then centre.(x := centre.x + translation.x)
    else centre.(y := centre.y + translation.y)
  }

  /** A displacement that lies on the axis of `d`, between no movement and the full distance
      `diff` to the empty slot. */
  predicate OnTrack(d: MoveDirection, delta: Point, diff: Point) {
    if d.IsHorizontal() then
      delta.y == 0.0 && Min(diff.x, 0.0) <= delta.x <= Max(diff.x, 0.0)
    else
      delta.x == 0.0 && Min(diff.y, 0.0) <= delta.y <= Max(diff.y, 0.0)
  }

  /** Whatever the raw translation, the snapshot stays on the segment between the moving cell
      and the empty slot, and restricting a restricted translation again changes nothing. */
  lemma DragStaysOnTrack(centre: Point, d: MoveDirection, raw: Point, diff: Point)
    ensures OnTrack(d, Sub(Dragged(centre, d, Restrict(raw, d, diff)), centre), diff)
    ensures Restrict(Restrict(raw, d, diff), d, diff) == Restrict(raw, d, diff)
  {
  }

  /** The test of `endMoving`: the displacement along the axis of `direction` exceeds half
      the tile's extent on that axis. */
  function ShouldComplete(direction: MoveDirection, deltaX: real, deltaY: real, width: real, height: real): (b: bool)
    ensures b <==> if direction.IsHorizontal() then Abs(deltaX) > width / 2.0 else Abs(deltaY) > height / 2.0
  {
    (direction.IsVertical() && Abs(deltaY) > height / 2.0)
    || (direction.IsHorizontal() && Abs(deltaX) > width / 2.0)
  }

  /** Whether a drag whose snapshot ended `delta` away from the moving cell commits: the
      dominant axis of `delta` (vertical on a tie) must carry strictly more than half the
      tile. */
  function Commits(delta: Point, width: real, height: real): (b: bool)
    ensures b <==>
      if Abs(delta.x) > Abs(delta.y) then Abs(delta.x) > width / 2.0
      else Abs(delta.y) > height / 2.0
  {
    ShouldComplete(From(delta.x, delta.y), delta.x, delta.y, width, height)
  }

  /** The threshold is strict: exactly half a tile snaps back, anything beyond commits. */
  lemma ThresholdIsStrict(width: real, height: real, e: real)
    requires width > 0.0 && height > 0.0 && e > 0.0
    ensures !Commits(Point(width / 2.0, 0.0), width, height)
    ensures !Commits(Point(-width / 2.0, 0.0), width, height)
    ensures !Commits(Point(0.0, height / 2.0), width, height)
    ensures !Commits(Point(0.0, -height / 2.0), width, height)
    ensures Commits(Point(width / 2.0 + e, 0.0), width, height)
    ensures Commits(Point(-width / 2.0 - e, 0.0), width, height)
    ensures Commits(Point(0.0, height / 2.0 + e), width, height)
    ensures Commits(Point(0.0, -height / 2.0 - e), width, height)
  {
  }

  /** The position `endMoving` swaps with: the neighbour in the drag's direction when the drag
      commits, falling back to the moving position itself when there is no such neighbour. */
  function CommitTarget(n: int, idx: int, delta: Point, width: real, height: real): (t: int)
    requires n > 0 && 0 <= idx < n * n
    ensures 0 <= t < n * n
    ensures !Commits(delta, width, height) ==> t == idx
    ensures t != idx ==> Neighbour(n, idx, From(delta.x, delta.y)) == Some(t)
    ensures Commits(delta, width, height) ==> t == Neighbour(n, idx, From(delta.x, delta.y)).GetOr(idx)
  {
    var direction := From(delta.x, delta.y);
    if ShouldComplete(direction, delta.x, delta.y, width, height) then
      Neighbour(n, idx, direction).GetOr(idx)
    else
      idx
  }

  /** Cell `b` lies next to cell `a` in direction `d`: on the same row or column, on the
      side `d` points at, and no closer than `a`'s extent on that axis (cells do not overlap). */
  predicate Beside(d: MoveDirection, a: Cell, b: Cell) {
    match d
    case Up => b.centre.x == a.centre.x && a.centre.y - b.centre.y >= a.height
    case Down => b.centre.x == a.centre.x && b.centre.y - a.centre.y >= a.height
    case Left => b.centre.y == a.centre.y && a.centre.x - b.centre.x >= a.width
    case Right => b.centre.y == a.centre.y && b.centre.x - a.centre.x >= a.width
  }

  /** The cell of the neighbour of `i` in direction `d`, if there is one, lies beside the
      cell of `i`. */
  ghost predicate LaidOutBeside(n: int, layout: seq<Cell>, i: int, d: MoveDirection)
    requires n > 0 && |layout| == n * n && 0 <= i < n * n
  {
    Neighbour(n, i, d).Some? ==> Beside(d, layout[i], layout[Neighbour(n, i, d).value])
  }

  /** The layout of the collection view: one cell per position, each of positive size, and
      the cells of neighbouring positions laid out next to each other. */
  ghost predicate GridLayout(n: int, layout: seq<Cell>) {
    && n > 0
    && |layout| == n * n
    && (forall i :: 0 <= i < n * n ==> layout[i].width > 0.0 && layout[i].height > 0.0)
    && (forall i, d :: 0 <= i < n * n ==> LaidOutBeside(n, layout, i, d))
  }

  /** A drag that stayed on track towards the empty slot either snaps back or swaps the tile
      with the empty slot, and it swaps exactly when it commits. */
  lemma CommitLandsOnEmptySlot(n: int, board: seq<int>, layout: seq<Cell>, idx: int, d: MoveDirection, snapshot: Point)
    requires GridLayout(n, layout) && |board| == n * n && 0 <= idx < n * n
    requires AvailableDirection(n, board, idx) == Some(d)
    requires OnTrack(d, Sub(snapshot, layout[idx].centre),
                     Sub(layout[Neighbour(n, idx, d).value].centre, layout[idx].centre))
    ensures var t := Neighbour(n, idx, d).value;
            var c := layout[idx];
            var k := CommitTarget(n, idx, Sub(snapshot, c.centre), c.width, c.height);
            board[t] == 0 && (k == idx || k == t) && (k == t <==> Commits(Sub(snapshot, c.centre), c.width, c.height))
  {
    var t := Neighbour(n, idx, d).value;
    var c := layout[idx];
    var delta := Sub(snapshot, c.centre);
    assert LaidOutBeside(n, layout, idx, d);
    if Commits(delta, c.width, c.height) {
      assert From(delta.x, delta.y) == d;
    }
  }

  /** A drag pulled at least as far as the empty slot is clamped onto it and commits. */
  lemma FullDragCommits(n: int, layout: seq<Cell>, idx: int, d: MoveDirection, raw: Point)
    requires GridLayout(n, layout) && 0 <= idx < n * n && Neighbour(n, idx, d).Some?
    requires var diff := Sub(layout[Neighbour(n, idx, d).value].centre, layout[idx].centre);
             if d.IsHorizontal() then Abs(raw.x) >= Abs(diff.x) && raw.x * diff.x > 0.0
             else Abs(raw.y) >= Abs(diff.y) && raw.y * diff.y > 0.0
    ensures var c := layout[idx];
            var diff := Sub(layout[Neighbour(n, idx, d).value].centre, c.centre);
            var delta := Sub(Dragged(c.centre, d, Restrict(raw, d, diff)), c.centre);
            delta == (if d.IsHorizontal() then Point(diff.x, 0.0) else Point(0.0, diff.y))
            && Commits(delta, c.width, c.height)
  {
    var t := Neighbour(n, idx, d).value;
    assert LaidOutBeside(n, layout, idx, d);
  }

  /** The session fields outlive the gesture. After a committed move they still name the
      moving position, and the snapshot rests on the centre of the position it was swapped
      with; the end-of-drag rule run again on those fields commits towards that position
      (and by `SwapTwiceRestores` the second swap puts both tiles back). */
  lemma StaleEndUndoesCommit(n: int, layout: seq<Cell>, idx: int, d: MoveDirection)
    requires GridLayout(n, layout) && 0 <= idx < n * n
    requires Neighbour(n, idx, d).Some?
    ensures var t := Neighbour(n, idx, d).value;
            var c := layout[idx];
            CommitTarget(n, idx, Sub(layout[t].centre, c.centre), c.width, c.height) == t
  {
    var t := Neighbour(n, idx, d).value;
    assert LaidOutBeside(n, layout, idx, d);
  }

  /** After a drag the board is either unchanged, or the tile at `idx` has been swapped with
      the empty slot that was next to it. */
  ghost predicate KeptOrSlid(n: int, before: seq<int>, after: seq<int>, idx: int)
    requires n > 0 && |before| == n * n && 0 <= idx < n * n
  {
    after == before
    || match AvailableDirection(n, before, idx)
       case None => false
       case Some(d) =>
         var t := Neighbour(n, idx, d).value;
         before[t] == 0 && after == Swapped(before, idx, t)
  }

  /** What holds of the session fields while a gesture is under way: they describe the
      touched position and its cell; a tile that cannot move has not moved; a tile that can
      has its target fields set to the empty slot and has moved only on track towards it. */
  ghost predicate SessionOnTrack(n: int, layout: seq<Cell>, board: seq<int>, moving: int, cell: Cell,
                                 target: Option<int>, targetCell: Option<Cell>, snapshot: Point)
    requires GridLayout(n, layout) && |board| == n * n
  {
    && 0 <= moving < n * n
    && cell == layout[moving]
    && match AvailableDirection(n, board, moving)
       case None => snapshot == cell.centre
       case Some(d) =>
         var t := Neighbour(n, moving, d).value;
         && target == Some(t)
         && targetCell == Some(layout[t])
         && OnTrack(d, Sub(snapshot, cell.centre), Sub(layout[t].centre, cell.centre))
  }

  /** The end of a gesture whose session stayed on track leaves the board as it was or slides
      the touched tile into the empty slot. */
  lemma TrackedDragKeepsOrSlides(n: int, layout: seq<Cell>, board: seq<int>, moving: int, cell: Cell,
                                 target: Option<int>, targetCell: Option<Cell>, snapshot: Point, k: int)
    requires GridLayout(n, layout) && |board| == n * n
    requires SessionOnTrack(n, layout, board, moving, cell, target, targetCell, snapshot)
    requires k == CommitTarget(n, moving, Sub(snapshot, cell.centre), cell.width, cell.height)
    ensures KeptOrSlid(n, board, Swapped(board, moving, k), moving)
  {
    match AvailableDirection(n, board, moving)
    case None =>
      assert k == moving;
      assert Swapped(board, moving, k) == board;
    case Some(d) =>
      CommitLandsOnEmptySlot(n, board, layout, moving, d, snapshot);
      if k == moving {
        assert Swapped(board, moving, k) == board;
      }
  }
}
