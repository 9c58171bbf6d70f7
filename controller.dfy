/** `ViewController`: the first version of the puzzle, the same gesture logic as
    `PuzzleBoardView` written out for a 4 by 4 board with the constants 4 and 15, and with
    the board left in its initial order (no shuffle). */
module Controller {
  import opened Optional
  import opened Directions
  import Grid
  import opened Drag

  /** `indexPath(fromIndexPath:direction:)` with the side fixed at 4 and the last position
      at 15. It is the general neighbour function at side 4. */
  function Neighbour(idx: int, d: MoveDirection): (r: Option<int>)
    requires 0 <= idx < 16
    ensures r.Some? ==> 0 <= r.value < 16
    ensures r == Grid.Neighbour(4, idx, d)
  {
    match d
    case Up => if idx - 4 < 0 then None else Some(idx - 4)
    case Down => if idx + 4 > 15 then None else Some(idx + 4)
    case Left => if idx % 4 == 0 then None else Some(idx - 1)
    case Right => if (idx + 1) % 4 == 0 then None else Some(idx + 1)
  }

  /** `availableDirectionToMove(forIndexPath:)` on the 4 by 4 board: the same order of
      checks, so the same answer as the general legality check. */
  function AvailableDirection(board: seq<int>, idx: int): (r: Option<MoveDirection>)
    requires |board| == 16 && 0 <= idx < 16
    ensures r == Grid.AvailableDirection(4, board, idx)
  {
    var up := Neighbour(idx, Up);
    var down := Neighbour(idx, Down);
    var left := Neighbour(idx, Left);
    var right := Neighbour(idx, Right);
    if up.Some? && board[up.value] == 0 then Some(Up)
    else if down.Some? && board[down.value] == 0 then Some(Down)
    else if left.Some? && board[left.value] == 0 then Some(Left)
    else if right.Some? && board[right.value] == 0 then Some(Right)
    else None
  }

  /** `moveDirection(forVector:)`: the dominant axis of the vector, ties going to the
      vertical axis; the same rule as `MoveDirection.from(vector:)`. */
  function MoveDirectionFor(dx: real, dy: real): (r: MoveDirection)
    ensures r == From(dx, dy)
    ensures r.IsHorizontal() <==> Abs(dx) > Abs(dy)
  {
    if Abs(dx) > Abs(dy) then
      if dx > 0.0 then Right else Left
    else
      if dy > 0.0 then Down else Up
  }

  /** The initial `cellVMs`: the numbers 0 .. 15 in order. */
  function InitialCells(): (r: seq<int>)
    ensures |r| == 16 && forall i :: 0 <= i < 16 ==> r[i] == i
    ensures Grid.IsBoard(4, r)
  {
    var r := seq(16, i => i);
    Grid.InOrderIsBoard(4, r);
    r
  }

  /** On the unshuffled board the empty slot is at position 0, so exactly two tiles can
      move: the one to its right (position 1, moving left) and the one below it (position
      4, moving up). */
  lemma InitialMoves(idx: int)
    requires 0 <= idx < 16
    ensures AvailableDirection(InitialCells(), idx) ==
      if idx == 1 then Some(Left) else if idx == 4 then Some(Up) else None
  {
    var board := InitialCells();
    Grid.SingleEmpty(4, board, 0);
    if idx == 1 {
      Grid.AvailableDirectionIsUnique(4, board, idx, Left);
    } else if idx == 4 {
      Grid.AvailableDirectionIsUnique(4, board, idx, Up);
    } else {
      forall d
        ensures !Grid.Opens(4, board, idx, d)
      {
        if Grid.Neighbour(4, idx, d).Some? {
          assert Grid.Neighbour(4, idx, d).value != 0;
        }
      }
    }
  }

  class ViewController {
    /** The geometry of the cell shown at each of the 16 positions. */
    const layout: seq<Cell>
    /** `cellVMs`, reduced to the cells' numbers; 0 is the empty slot. */
    var cells: array<int>

    // The session fields of the source.
    var movingIndex: Option<int>
    var movingCell: Option<Cell>
    var targetIndex: Option<int>
    var targetCell: Option<Cell>
    /** The centre of the snapshot view that is dragged in place of the moving cell. */
    var snapshotCentre: Option<Point>

    ghost predicate Valid()
      reads this, cells
    {
      && GridLayout(4, layout)
      && cells.Length == 16
      && Grid.IsBoard(4, cells[..])
      && (movingIndex.Some? ==> 0 <= movingIndex.value < 16)
      && (targetIndex.Some? ==> 0 <= targetIndex.value < 16)
    }

    /** The session fields describe a gesture under way that has kept to its track. */
    ghost predicate Tracking()
      reads this, cells
      requires Valid()
    {
      && movingIndex.Some? && movingCell.Some? && snapshotCentre.Some?
      && SessionOnTrack(4, layout, cells[..], movingIndex.value, movingCell.value,
                        targetIndex, targetCell, snapshotCentre.value)
    }

    /** The controller as loaded: the board in its initial order and no session. */
    constructor (layout: seq<Cell>)
      requires GridLayout(4, layout)
      ensures Valid() && fresh(cells)
      ensures this.layout == layout && cells[..] == InitialCells()
      ensures movingIndex.None? && movingCell.None? && snapshotCentre.None?
      ensures targetIndex.None? && targetCell.None?
    {
      this.layout := layout;
      cells := new int[16](i => i);
      movingIndex, movingCell, snapshotCentre := None, None, None;
      targetIndex, targetCell := None, None;
      new;
      assert cells[..] == InitialCells();
    }

    /** The `.began` branch of `panGestureDetected`; `touched` is the position under the
        finger, if any. */
    method Begin(touched: Option<int>)
      requires Valid()
      requires touched.Some? ==> 0 <= touched.value < 16
      modifies this
      ensures Valid() && cells == old(cells)
      ensures touched.None? ==> unchanged(this)
      ensures touched.Some? ==>
        var i := touched.value;
        && movingIndex == Some(i) && movingCell == Some(layout[i])
        && snapshotCentre == Some(layout[i].centre)
        && match AvailableDirection(cells[..], i)
           case Some(d) =>
             targetIndex == Neighbour(i, d) && targetCell == Some(layout[targetIndex.value])
           case None =>
             targetIndex == old(targetIndex) && targetCell == old(targetCell)
      ensures touched.Some? ==> Tracking()
    {
      if touched.None? {
        return;
      }
      var i := touched.value;
      movingIndex := Some(i);
      movingCell := Some(layout[i]);
      snapshotCentre := Some(layout[i].centre);
      var available := AvailableDirection(cells[..], i);
      if available.Some? {
        targetIndex := Neighbour(i, available.value);
        targetCell := Some(layout[targetIndex.value]);
      }
    }

    /** `moveSelectedCell`: clamp the translation to the free axis, between the moving cell
        and the empty slot, and move the snapshot by it. */
    method MoveSelectedCell(translation: Point) returns (adjusted: Point)
      requires Valid()
      modifies this`snapshotCentre
      ensures Valid()
      ensures
        if && movingIndex.Some? && old(snapshotCentre).Some? && movingCell.Some? && targetCell.Some?
           && AvailableDirection(cells[..], movingIndex.value).Some?
        then
          var d := AvailableDirection(cells[..], movingIndex.value).value;
          var c := movingCell.value.centre;
          && adjusted == Restrict(translation, d, Sub(targetCell.value.centre, c))
          && snapshotCentre == Some(Dragged(c, d, adjusted))
        else
          adjusted == translation && snapshotCentre == old(snapshotCentre)
      ensures old(Tracking()) ==> Tracking()
    {
      adjusted := translation;
      if movingIndex.None? || snapshotCentre.None? || movingCell.None? || targetCell.None? {
        return;
      }
      var centre := movingCell.value.centre;
      var diffY := targetCell.value.centre.y - centre.y;
      var diffX := targetCell.value.centre.x - centre.x;
      var leftMost := if diffX > 0.0 then 0.0 else diffX;
      var rightMost := if diffX > 0.0 then diffX else 0.0;
      var topMost := if diffY > 0.0 then 0.0 else diffY;
      var bottomMost := if diffY > 0.0 then diffY else 0.0;

      var t := translation;
      ghost var board := cells[..];
      var available := AvailableDirection(cells[..], movingIndex.value);
      if available.None? {
        return;
      }
      var d := available.value;
      if d.IsHorizontal() {
        if t.x < leftMost {
          t := t.(x := leftMost);
        }
        if t.x > rightMost {
          t := t.(x := rightMost);
        }
      } else {
        if t.y < topMost {
          t := t.(y := topMost);
        }
        if t.y > bottomMost {
          t := t.(y := bottomMost);
        }
      }
      adjusted := t;

      var newCentre := centre;
      if d.IsHorizontal() {
        newCentre := newCentre.(x := newCentre.x + t.x);
      } else {
        newCentre := newCentre.(y := newCentre.y + t.y);
      }
      snapshotCentre := Some(newCentre);
      assert cells[..] == board;
      DragStaysOnTrack(centre, d, translation, Sub(targetCell.value.centre, centre));
    }

    /** `endMoving`, with the animation's completion run at once. */
    method EndMoving()
      requires Valid()
      modifies this`snapshotCentre, cells
      ensures Valid() && cells == old(cells)
      ensures
        if old(movingCell).Some? && old(snapshotCentre).Some? && movingIndex.Some? then
          var i := movingIndex.value;
          var c := movingCell.value;
          var t := CommitTarget(4, i, Sub(old(snapshotCentre).value, c.centre), c.width, c.height);
          cells[..] == Grid.Swapped(old(cells[..]), i, t) && snapshotCentre == Some(layout[t].centre)
        else
          cells[..] == old(cells[..]) && snapshotCentre == old(snapshotCentre)
      ensures old(Tracking()) ==> KeptOrSlid(4, old(cells[..]), cells[..], movingIndex.value)
    {
      if movingCell.None? || snapshotCentre.None? || movingIndex.None? {
        return;
      }
      var cell := movingCell.value;
      var i := movingIndex.value;
      ghost var snapshot := snapshotCentre.value;
      var shouldComplete, target := ResolveTarget(i, cell, snapshotCentre.value);

      ghost var before := cells[..];
      ghost var tracking := Tracking();
      if tracking {
        TrackedDragKeepsOrSlides(4, layout, before, i, cell, targetIndex, targetCell, snapshot, target);
      }

      snapshotCentre := Some(layout[target].centre);
      assert cells[..] == before;
      FinishMove(i, target, shouldComplete);
      assert old(Tracking()) == tracking;
      assert old(cells[..]) == before && cells[..] == Grid.Swapped(before, i, target);
    }

    /** The decision taken in `endMoving`: direction of the displacement, whether it went
        past half the cell, and the position the tile settles on. */
    method ResolveTarget(i: int, cell: Cell, snapshot: Point) returns (shouldComplete: bool, target: int)
      requires 0 <= i < 16
      ensures shouldComplete == Commits(Sub(snapshot, cell.centre), cell.width, cell.height)
      ensures target == CommitTarget(4, i, Sub(snapshot, cell.centre), cell.width, cell.height)
      ensures !shouldComplete ==> target == i
    {
      var deltaX := snapshot.x - cell.centre.x;
      var deltaY := snapshot.y - cell.centre.y;
      var direction := MoveDirectionFor(deltaX, deltaY);

      shouldComplete := false;
      if direction.IsVertical() && Abs(deltaY) > cell.height / 2.0 {
        shouldComplete := true;
      } else if direction.IsHorizontal() && Abs(deltaX) > cell.width / 2.0 {
        shouldComplete := true;
      }

      target := i;
      if shouldComplete {
        target := Neighbour(i, direction).GetOr(i);
      }
    }

    /** The completion of the animation in `endMoving`: swap on a commit. */
    method FinishMove(i: int, target: int, shouldComplete: bool)
      requires Valid()
      requires 0 <= i < 16 && 0 <= target < 16
      requires !shouldComplete ==> target == i
      modifies cells
      ensures Valid()
      ensures cells[..] == Grid.Swapped(old(cells[..]), i, target)
    {
      Grid.SwapKeepsBoard(4, cells[..], i, target);
      if shouldComplete {
        cells[i], cells[target] := cells[target], cells[i];
      }
    }

    /** `panGestureDetected(recognizer:)`: dispatch on the recognizer's state. */
    method PanGestureDetected(state: GestureState, touched: Option<int>, translation: Point)
      requires Valid()
      requires touched.Some? ==> 0 <= touched.value < 16
      modifies this, cells
      ensures Valid() && cells == old(cells)
      ensures state != Ended && state != Cancelled ==> cells[..] == old(cells[..])
      ensures state == Other || (state == Began && touched.None?) ==> unchanged(this)
      ensures state != Began ==>
        && movingIndex == old(movingIndex) && movingCell == old(movingCell)
        && targetIndex == old(targetIndex) && targetCell == old(targetCell)
      ensures state == Began && touched.Some? ==>
        var i := touched.value;
        && movingIndex == Some(i) && movingCell == Some(layout[i])
        && snapshotCentre == Some(layout[i].centre)
        && match AvailableDirection(cells[..], i)
           case Some(d) =>
             targetIndex == Neighbour(i, d) && targetCell == Some(layout[targetIndex.value])
           case None =>
             targetIndex == old(targetIndex) && targetCell == old(targetCell)
      ensures state == Changed ==>
        if && movingIndex.Some? && old(snapshotCentre).Some? && movingCell.Some? && targetCell.Some?
           && AvailableDirection(cells[..], movingIndex.value).Some?
        then
          var d := AvailableDirection(cells[..], movingIndex.value).value;
          var c := movingCell.value.centre;
          snapshotCentre == Some(Dragged(c, d, Restrict(translation, d, Sub(targetCell.value.centre, c))))
        else
          snapshotCentre == old(snapshotCentre)
      ensures state == Ended || state == Cancelled ==>
        if old(movingCell).Some? && old(snapshotCentre).Some? && movingIndex.Some? then
          var i := movingIndex.value;
          var c := movingCell.value;
          var t := CommitTarget(4, i, Sub(old(snapshotCentre).value, c.centre), c.width, c.height);
          cells[..] == Grid.Swapped(old(cells[..]), i, t) && snapshotCentre == Some(layout[t].centre)
        else
          cells[..] == old(cells[..]) && snapshotCentre == old(snapshotCentre)
      ensures state == Began && touched.Some? ==> Tracking()
      ensures state == Changed && old(Tracking()) ==> Tracking()
      ensures (state == Ended || state == Cancelled) && old(Tracking()) ==>
        KeptOrSlid(4, old(cells[..]), cells[..], old(movingIndex).value)
    {
      match state
      case Began => Begin(touched);
      case Changed =>
        var _ := MoveSelectedCell(translation);
      case Ended => EndMoving();
      case Cancelled => EndMoving();
      case Other =>
    }
  }
}
