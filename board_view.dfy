/** `PuzzleBoardView`: the puzzle as a collection view whose side `gameSize` is configurable.
    The board (`cellVMs`, reduced to the cells' numbers) is an array swapped in place; the
    fields of a drag session are set when a pan gesture begins and are never cleared. */
module BoardView {
  import opened Optional
  import opened Directions
  import opened Grid
  import opened Drag

  class PuzzleBoardView {
    /** The side of the board. */
    const gameSize: int
    /** The geometry of the cell shown at each position. */
    const layout: seq<Cell>
    /** The number shown at each position; 0 is the empty slot. */
    var cells: array<int>

    // The session fields of the source.
    var movingIndex: Option<int>
    var movingCell: Option<Cell>
    var targetIndex: Option<int>
    var targetCell: Option<Cell>
    /** The centre of the snapshot view that is dragged in place of the moving cell. */
    var snapshotCentre: Option<Point>

    ghost predicate Valid()
      reads this, cells
    {
      && GridLayout(gameSize, layout)
      && cells.Length == gameSize * gameSize
      && IsBoard(gameSize, cells[..])
      && (movingIndex.Some? ==> 0 <= movingIndex.value < gameSize * gameSize)
      && (targetIndex.Some? ==> 0 <= targetIndex.value < gameSize * gameSize)
    }

    /** The session fields describe a gesture under way that has kept to its track (see
        `SessionOnTrack`). */
    ghost predicate Tracking()
      reads this, cells
      requires Valid()
    {
      && movingIndex.Some? && movingCell.Some? && snapshotCentre.Some?
      && SessionOnTrack(gameSize, layout, cells[..], movingIndex.value, movingCell.value,
                        targetIndex, targetCell, snapshotCentre.value)
    }

    /** `awakeFromNib`: the numbers 0 .. gameSize*gameSize - 1, in the order the shuffle left
        them; no session yet. */
    constructor (gameSize: int, layout: seq<Cell>, shuffled: seq<int>)
      requires GridLayout(gameSize, layout)
      requires IsBoard(gameSize, shuffled)
      ensures Valid() && fresh(cells)
      ensures this.gameSize == gameSize && this.layout == layout && cells[..] == shuffled
      ensures movingIndex.None? && movingCell.None? && snapshotCentre.None?
      ensures targetIndex.None? && targetCell.None?
    {
      this.gameSize := gameSize;
      this.layout := layout;
      cells := new int[gameSize * gameSize](i requires 0 <= i < |shuffled| => shuffled[i]);
      movingIndex, movingCell, snapshotCentre := None, None, None;
      targetIndex, targetCell := None, None;
      new;
      assert cells[..] == shuffled;
    }

    /** The `.began` branch of `panGestureDetected`: `touched` is the position under the
        finger, if any. The target fields are only overwritten when the tile can move. */
    method Begin(touched: Option<int>)
      requires Valid()
      requires touched.Some? ==> 0 <= touched.value < gameSize * gameSize
      modifies this
      ensures Valid() && cells == old(cells)
      ensures touched.None? ==> unchanged(this)
      ensures touched.Some? ==>
        var i := touched.value;
        && movingIndex == Some(i) && movingCell == Some(layout[i])
        && snapshotCentre == Some(layout[i].centre)
        && match AvailableDirection(gameSize, cells[..], i)
           case Some(d) =>
             targetIndex == Neighbour(gameSize, i, d) && targetCell == Some(layout[targetIndex.value])
           case None =>
             targetIndex == old(targetIndex) && targetCell == old(targetCell)
      ensures touched.Some? ==> Tracking()
    {
      if touched.None? {
        return;
      }
      var i := touched.value;
      movingIndex := Some(i);
      movingCell := Some(layout[i]);
      snapshotCentre := Some(layout[i].centre);
      var available := AvailableDirection(gameSize, cells[..], i);
      if available.Some? {
        targetIndex := Neighbour(gameSize, i, available.value);
        targetCell := Some(layout[targetIndex.value]);
      }
    }

    /** `moveSelectedCell`: clamp the gesture's `translation` to the free axis, between the
        moving cell and the empty slot, and move the snapshot by it. Returns the translation
        set back on the recognizer (unchanged when nothing moves). */
    method MoveSelectedCell(translation: Point) returns (adjusted: Point)
      requires Valid()
      modifies this`snapshotCentre
      ensures Valid()
      ensures
        if && movingIndex.Some? && old(snapshotCentre).Some? && movingCell.Some? && targetCell.Some?
           && AvailableDirection(gameSize, cells[..], movingIndex.value).Some?
        then
          var d := AvailableDirection(gameSize, cells[..], movingIndex.value).value;
          var c := movingCell.value.centre;
          && adjusted == Restrict(translation, d, Sub(targetCell.value.centre, c))
          && snapshotCentre == Some(Dragged(c, d, adjusted))
        else
          adjusted == translation && snapshotCentre == old(snapshotCentre)
      ensures old(Tracking()) ==> Tracking()
    {
      adjusted := translation;
      if movingIndex.None? || snapshotCentre.None? || movingCell.None? || targetCell.None? {
        return;
      }
      var centre := movingCell.value.centre;
      var diffY := targetCell.value.centre.y - centre.y;
      var diffX := targetCell.value.centre.x - centre.x;
      var leftMost := if diffX > 0.0 then 0.0 else diffX;
      var rightMost := if diffX > 0.0 then diffX else 0.0;
      var topMost := if diffY > 0.0 then 0.0 else diffY;
      var bottomMost := if diffY > 0.0 then diffY else 0.0;

      var t := translation;
      ghost var board := cells[..];
      var available := AvailableDirection(gameSize, cells[..], movingIndex.value);
      if available.None? {
        return;
      }
      var d := available.value;
      if d.IsHorizontal() {
        if t.x < leftMost {
          t := t.(x := leftMost);
        }
        if t.x > rightMost {
          t := t.(x := rightMost);
        }
      } else {
        if t.y < topMost {
          t := t.(y := topMost);
        }
        if t.y > bottomMost {
          t := t.(y := bottomMost);
        }
      }
      adjusted := t;

      var newCentre := centre;
      if d.IsHorizontal() {
        newCentre := newCentre.(x := newCentre.x + t.x);
      } else {
        newCentre := newCentre.(y := newCentre.y + t.y);
      }
      snapshotCentre := Some(newCentre);
      assert cells[..] == board;
      DragStaysOnTrack(centre, d, translation, Sub(targetCell.value.centre, centre));
    }

    /** `endMoving`, with the animation's completion run at once: resolve the direction of the
        snapshot's displacement, swap when the drag commits, and leave the snapshot on the
        centre of the position it settled on. Nothing happens before any gesture began. */
    method EndMoving()
      requires Valid()
      modifies this`snapshotCentre, cells
      ensures Valid() && cells == old(cells)
      ensures
        if old(movingCell).Some? && old(snapshotCentre).Some? && movingIndex.Some? then
          var i := movingIndex.value;
          var c := movingCell.value;
          var t := CommitTarget(gameSize, i, Sub(old(snapshotCentre).value, c.centre), c.width, c.height);
          cells[..] == Swapped(old(cells[..]), i, t) && snapshotCentre == Some(layout[t].centre)
        else
          cells[..] == old(cells[..]) && snapshotCentre == old(snapshotCentre)
      ensures old(Tracking()) ==> KeptOrSlid(gameSize, old(cells[..]), cells[..], movingIndex.value)
    {
      if movingCell.None? || snapshotCentre.None? || movingIndex.None? {
        return;
      }
      var cell := movingCell.value;
      var i := movingIndex.value;
      ghost var snapshot := snapshotCentre.value;
      var shouldComplete, target := ResolveTarget(i, cell, snapshotCentre.value);

      ghost var before := cells[..];
      ghost var tracking := Tracking();
      if tracking {
        TrackedDragKeepsOrSlides(gameSize, layout, before, i, cell, targetIndex, targetCell, snapshot, target);
      }

      snapshotCentre := Some(layout[target].centre);
      assert cells[..] == before;
      FinishMove(i, target, shouldComplete);
      assert old(Tracking()) == tracking;
      assert old(cells[..]) == before && cells[..] == Swapped(before, i, target);
    }

    /** The decision taken in `endMoving`: the direction of the snapshot's displacement from
        the moving cell, whether it went past half the cell along that direction, and the
        position the tile settles on. */
    method ResolveTarget(i: int, cell: Cell, snapshot: Point) returns (shouldComplete: bool, target: int)
      requires gameSize > 0 && 0 <= i < gameSize * gameSize
      ensures shouldComplete == Commits(Sub(snapshot, cell.centre), cell.width, cell.height)
      ensures target == CommitTarget(gameSize, i, Sub(snapshot, cell.centre), cell.width, cell.height)
      ensures !shouldComplete ==> target == i
    {
      var deltaX := snapshot.x - cell.centre.x;
      var deltaY := snapshot.y - cell.centre.y;
      var direction := From(deltaX, deltaY);

      shouldComplete := false;
      if direction.IsVertical() && Abs(deltaY) > cell.height / 2.0 {
        shouldComplete := true;
      } else if direction.IsHorizontal() && Abs(deltaX) > cell.width / 2.0 {
        shouldComplete := true;
      }

      target := i;
      if shouldComplete {
        target := Neighbour(gameSize, i, direction).GetOr(i);
      }
    }

    /** The completion of the animation in `endMoving`: swap the moving tile with the
        target position when the drag commits. Without a commit the target is the moving
        position itself, and the board is unchanged either way. */
    method FinishMove(i: int, target: int, shouldComplete: bool)
      requires Valid()
      requires 0 <= i < gameSize * gameSize && 0 <= target < gameSize * gameSize
      requires !shouldComplete ==> target == i
      modifies cells
      ensures Valid()
      ensures cells[..] == Swapped(old(cells[..]), i, target)
    {
      SwapKeepsBoard(gameSize, cells[..], i, target);
      if shouldComplete {
        SwapAt(i, target);
      }
    }

    /** `cellVMs.swapAt(i, j)`. */
    method SwapAt(i: int, j: int)
      requires 0 <= i < cells.Length && 0 <= j < cells.Length
      modifies cells
      ensures cells[..] == Swapped(old(cells[..]), i, j)
    {
      cells[i], cells[j] := cells[j], cells[i];
    }

    /** `panGestureDetected(recognizer:)`: dispatch on the recognizer's state. */
    method PanGestureDetected(state: GestureState, touched: Option<int>, translation: Point)
      requires Valid()
      requires touched.Some? ==> 0 <= touched.value < gameSize * gameSize
      modifies this, cells
      ensures Valid() && cells == old(cells)
      ensures state != Ended && state != Cancelled ==> cells[..] == old(cells[..])
      ensures state == Other || (state == Began && touched.None?) ==> unchanged(this)
      ensures state != Began ==>
        && movingIndex == old(movingIndex) && movingCell == old(movingCell)
        && targetIndex == old(targetIndex) && targetCell == old(targetCell)
      ensures state == Began && touched.Some? ==>
        var i := touched.value;
        && movingIndex == Some(i) && movingCell == Some(layout[i])
        && snapshotCentre == Some(layout[i].centre)
        && match AvailableDirection(gameSize, cells[..], i)
           case Some(d) =>
             targetIndex == Neighbour(gameSize, i, d) && targetCell == Some(layout[targetIndex.value])
           case None =>
             targetIndex == old(targetIndex) && targetCell == old(targetCell)
      ensures state == Changed ==>
        if && movingIndex.Some? && old(snapshotCentre).Some? && movingCell.Some? && targetCell.Some?
           && AvailableDirection(gameSize, cells[..], movingIndex.value).Some?
        then
          var d := AvailableDirection(gameSize, cells[..], movingIndex.value).value;
          var c := movingCell.value.centre;
          snapshotCentre == Some(Dragged(c, d, Restrict(translation, d, Sub(targetCell.value.centre, c))))
        else
          snapshotCentre == old(snapshotCentre)
      ensures state == Ended || state == Cancelled ==>
        if old(movingCell).Some? && old(snapshotCentre).Some? && movingIndex.Some? then
          var i := movingIndex.value;
          var c := movingCell.value;
          var t := CommitTarget(gameSize, i, Sub(old(snapshotCentre).value, c.centre), c.width, c.height);
          cells[..] == Swapped(old(cells[..]), i, t) && snapshotCentre == Some(layout[t].centre)
        else
          cells[..] == old(cells[..]) && snapshotCentre == old(snapshotCentre)
      ensures state == Began && touched.Some? ==> Tracking()
      ensures state == Changed && old(Tracking()) ==> Tracking()
      ensures (state == Ended || state == Cancelled) && old(Tracking()) ==>
        KeptOrSlid(gameSize, old(cells[..]), cells[..], old(movingIndex).value)
    {
      match state
      case Began => Begin(touched);
      case Changed =>
        var _ := MoveSelectedCell(translation);
      case Ended => EndMoving();
      case Cancelled => EndMoving();
      case Other =>
    }
  }
}
