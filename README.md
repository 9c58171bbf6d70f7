# Sliding-tile puzzle board: a Dafny model

This project models the gesture-driven core of the PuzzleChallengeInterface iOS app. The
app is a sliding-tile puzzle drawn as a collection view: a square board of `gameSize` by
`gameSize` positions, holding the numbers `0 .. gameSize*gameSize - 1`, where `0` is the
empty slot.

A pan gesture on a tile works in three phases:

- **Begin.** The touched position is recorded. If the tile can move (one of its four
  neighbours, tried in the order up, down, left, right, holds `0`), that neighbour is
  recorded as the target.
- **Drag.** Every translation of the finger is clamped to the segment between the tile and
  the empty slot. A snapshot of the tile is moved along that segment.
- **End or cancel.** The direction of the snapshot's displacement is resolved. If the
  displacement along that axis exceeds half the tile, the tile is swapped with its
  neighbour in the data source. Otherwise the tile snaps back.

Two copies of this logic exist:

- `PuzzleBoardView` has a configurable side and shuffles the board when loaded.
- `ViewController`, the earlier version, fixes the side at 4 and never shuffles.

Modules:

- `Optional`: the `Option` type used for Swift optionals.
- `Directions`: `MoveDirection`, its axis predicates, and `MoveDirection.from(vector:)`.
- `Grid`: the row-major board.
  - Neighbour positions and the legality check `availableDirectionToMove`.
  - The board invariant: a permutation of `0 .. n*n - 1`, with exactly one empty slot.
  - `swapAt`.
- `Drag`: the geometry of one drag.
  - The clamp of `moveSelectedCell` and the completion rule of `endMoving`.
  - The session invariant, and the safety property: the end of a gesture that stayed on
    track leaves the board unchanged or slides the touched tile into the empty slot.
- `BoardView`: the class `PuzzleBoardView`.
  - The board is an `array<int>` swapped in place.
  - The session fields are `Option` fields, updated by `Begin`, `MoveSelectedCell` and
    `EndMoving`.
- `Controller`: the class `ViewController`.
  - Its own neighbour function, written with the constants 4 and 15.
  - Its own legality check and direction function.
  - Each is proved equal to the general one at side 4.
  - The unshuffled initial board, and the fact that only positions 1 and 4 can move on it.

The code never clears `movingIndexPath`, `movingCell`, `targetIndexPath`, `targetCell` or
`cellSnapshot`: they keep their values after a gesture ends. The model keeps them too, and
`Drag.StaleEndUndoesCommit` shows one consequence. Suppose a move was committed and the next
gesture begins away from every cell. When that gesture ends, the stale fields are run
through the end-of-drag rule again, and the rule commits towards the same target; by
`Grid.SwapTwiceRestores` that second swap puts both tiles back. Whether this happens in the
app depends on how UIKit reuses the cell views after `reloadData()`, which is not part of
this model, so it is recorded as behaviour of the model, not as a defect.

## Model

| member | source | states |
|---|---|---|
| `Directions.From` | CollectionViewManipulation/CustomViews/PuzzleBoardView.swift:29-36 | The result is horizontal iff the x-component dominates strictly. It is Right/Left by the sign of dx, else Down/Up by the sign of dy, with each of the four given as an if-and-only-if. |
| `Directions.AxesPartition` | CollectionViewManipulation/CustomViews/PuzzleBoardView.swift:19-25 | `MoveDirection.IsHorizontal` and `MoveDirection.IsVertical` (`isHorizontal()`, `isVertical()`) split the directions: every direction is exactly one of horizontal ({Left, Right}) and vertical ({Up, Down}). |
| `Directions.TiesResolveVertically` | CollectionViewManipulation/CustomViews/PuzzleBoardView.swift:29-36 | When the two components have equal magnitude the result is vertical, and the zero vector gives Up. |
| `Grid.Neighbour` | CollectionViewManipulation/CustomViews/PuzzleBoardView.swift:82-94 | A neighbour, when there is one, is a position on the board. |
| `Grid.NeighbourIsGridStep` | CollectionViewManipulation/CustomViews/PuzzleBoardView.swift:82-94 | There is no neighbour exactly at the border the direction points at. Otherwise the neighbour is one row up or down, or one column left or right, in the same column or row; left and right never wrap to another row. |
| `Grid.NeighbourInverse` | CollectionViewManipulation/CustomViews/PuzzleBoardView.swift:82-94 | A step followed by a step in the opposite direction returns to the start. |
| `Grid.NeighboursDistinct` | CollectionViewManipulation/CustomViews/PuzzleBoardView.swift:82-94 | Two different directions never lead to the same position. |
| `Grid.AvailableDirection` | CollectionViewManipulation/CustomViews/PuzzleBoardView.swift:100-111 | A returned direction leads to a neighbour holding 0, and no direction earlier in the order up, down, left, right does. The result is none iff no direction leads to 0. |
| `Grid.AvailableDirectionIsUnique` | CollectionViewManipulation/CustomViews/PuzzleBoardView.swift:100-111 | On a board, any direction that leads to the empty slot is the one the check returns, so the order of the checks never matters. |
| `Grid.InOrderIsBoard` | CollectionViewManipulation/CustomViews/PuzzleBoardView.swift:64 | The numbers `0 ..< gameSize*gameSize` in order form a board: each number occurs once. |
| `Grid.SingleEmpty` | CollectionViewManipulation/CustomViews/PuzzleBoardView.swift:64-65 | On a board (a permutation of the initial numbers) only one position holds 0. |
| `Grid.Swapped` | CollectionViewManipulation/CustomViews/PuzzleBoardView.swift:216 | `swapAt(i, j)` exchanges the two entries, leaves every other entry alone and keeps the multiset of numbers. |
| `Grid.SwapTwiceRestores` | CollectionViewManipulation/CustomViews/PuzzleBoardView.swift:216 | Swapping the same two positions twice gives the board back. |
| `Grid.SwapKeepsBoard` | CollectionViewManipulation/CustomViews/PuzzleBoardView.swift:216 | A swap keeps a board a board, and swapping a position with itself changes nothing. |
| `Drag.ClampAxis` | CollectionViewManipulation/CustomViews/PuzzleBoardView.swift:241-268 | The clamped coordinate lies between 0 and the distance to the target's centre. A coordinate already in that range is kept; one below or above it is moved to the nearer end. |
| `Drag.Restrict` | CollectionViewManipulation/CustomViews/PuzzleBoardView.swift:253-271 | The translation handed back keeps the coordinate off the free axis. On the free axis it lies between 0 and the distance to the empty slot: a translation already in that range comes back unchanged, and one outside it is moved to the nearer end. |
| `Drag.Dragged` | CollectionViewManipulation/CustomViews/PuzzleBoardView.swift:273-282 | The snapshot's new centre is the moving cell's centre displaced by the translation on the free axis only. |
| `Drag.ClampIdempotent` | CollectionViewManipulation/CustomViews/PuzzleBoardView.swift:253-268 | Clamping twice is the same as clamping once. |
| `Drag.DragStaysOnTrack` | CollectionViewManipulation/CustomViews/PuzzleBoardView.swift:253-282 | Whatever the raw translation, the snapshot moves only on the free axis, between the tile and the empty slot, and re-clamping the returned translation changes nothing. |
| `Drag.ShouldComplete` | CollectionViewManipulation/CustomViews/PuzzleBoardView.swift:192-198 | The `shouldComplete` test holds iff the displacement on the axis of the resolved direction exceeds half the tile's extent on that axis. |
| `Drag.Commits` | CollectionViewManipulation/CustomViews/PuzzleBoardView.swift:190-198 | A drag commits iff the displacement on its dominant axis (vertical on a tie) exceeds half the tile's extent on that axis. |
| `Drag.ThresholdIsStrict` | CollectionViewManipulation/CustomViews/PuzzleBoardView.swift:194-197 | A displacement of exactly half a tile, in any of the four directions, does not commit. Anything further does. |
| `Drag.CommitTarget` | CollectionViewManipulation/CustomViews/PuzzleBoardView.swift:200-204 | The settling position is on the board. Without a commit it is the moving position. On a commit it is the neighbour in the displacement's direction, or the moving position when that neighbour does not exist. |
| `Drag.CommitLandsOnEmptySlot` | CollectionViewManipulation/CustomViews/PuzzleBoardView.swift:178-221 | For a drag that stayed on track, the target holds 0. The tile settles on the moving position or on the target, and on the target exactly when the drag commits. |
| `Drag.FullDragCommits` | CollectionViewManipulation/CustomViews/PuzzleBoardView.swift:253-282 | A translation that reaches at least as far as the empty slot is clamped onto it, and a drag ending there commits. |
| `Drag.StaleEndUndoesCommit` | CollectionViewManipulation/CustomViews/PuzzleBoardView.swift:178-221 | With the snapshot left resting on the centre of the neighbour it was swapped with, the end-of-drag rule run again on the same fields commits towards that neighbour. |
| `Drag.TrackedDragKeepsOrSlides` | CollectionViewManipulation/CustomViews/PuzzleBoardView.swift:145-221 | Ending a session that kept to its track leaves the board unchanged, or swaps the tile with the adjacent empty slot. |
| `BoardView.PuzzleBoardView.constructor` | CollectionViewManipulation/CustomViews/PuzzleBoardView.swift:58-66 | The board is the shuffled permutation of `0 ..< n*n`, and no session field is set. |
| `BoardView.PuzzleBoardView.Begin` | CollectionViewManipulation/CustomViews/PuzzleBoardView.swift:149-166 | Without a touched cell nothing changes. Otherwise the moving fields name the touched cell and the snapshot sits on its centre. The target fields are set to the legal neighbour only when one exists, and keep their old values otherwise. Afterwards the session is on track. |
| `BoardView.PuzzleBoardView.MoveSelectedCell` | CollectionViewManipulation/CustomViews/PuzzleBoardView.swift:224-283 | With all session fields set and a legal direction, the returned translation is the clamped one and the snapshot sits at the cell's centre moved by it on the free axis. In every other case nothing changes. It keeps the session on track. |
| `BoardView.PuzzleBoardView.EndMoving` | CollectionViewManipulation/CustomViews/PuzzleBoardView.swift:178-222 | Without the session fields it is a no-op. Otherwise the board becomes the swap of the moving and settling positions (unchanged unless the drag commits), and the snapshot rests on the settling position's centre. After an on-track session the board is kept or the tile slid into the empty slot, and it stays a board. |
| `BoardView.PuzzleBoardView.ResolveTarget` | CollectionViewManipulation/CustomViews/PuzzleBoardView.swift:186-204 | The stepwise `shouldComplete` flag equals the commit rule, and the target equals the settling position. Without a commit the target is the moving position. |
| `BoardView.PuzzleBoardView.FinishMove` | CollectionViewManipulation/CustomViews/PuzzleBoardView.swift:210-220 | The completion swaps on a commit and otherwise leaves the board alone, which equals swapping a position with itself. The board stays a board. |
| `BoardView.PuzzleBoardView.SwapAt` | CollectionViewManipulation/CustomViews/PuzzleBoardView.swift:216 | The array becomes the swap of its old contents. |
| `BoardView.PuzzleBoardView.PanGestureDetected` | CollectionViewManipulation/CustomViews/PuzzleBoardView.swift:145-176 | Ignored states and a begin away from every cell change nothing. Only a begin sets the moving and target fields, and on a cell it sets them as `Begin` does and starts an on-track session. A change gives the snapshot the clamped position of `MoveSelectedCell` and keeps the session on track. An end or a cancel swaps the board as `EndMoving` does; after an on-track session that keeps the board or slides the tile into the empty slot. Only ends and cancels change the board. |
| `Controller.Neighbour` | CollectionViewManipulation/ViewController.swift:56-68 | With the constants 4 and 15 the result stays in `0 ..< 16` and agrees with the general neighbour function at side 4. |
| `Controller.AvailableDirection` | CollectionViewManipulation/ViewController.swift:70-81 | Agrees with the general legality check at side 4. |
| `Controller.MoveDirectionFor` | CollectionViewManipulation/ViewController.swift:83-90 | Agrees with `MoveDirection.from(vector:)`: horizontal iff the x-component dominates strictly. |
| `Controller.InitialCells` | CollectionViewManipulation/ViewController.swift:30-32 | The initial board holds number `i` at position `i` and is a board of side 4. |
| `Controller.InitialMoves` | CollectionViewManipulation/ViewController.swift:70-81 | On the unshuffled board only position 1 (moving left) and position 4 (moving up) can move. |
| `Controller.ViewController.constructor` | CollectionViewManipulation/ViewController.swift:30-32 | The board is the initial one, with no session. |
| `Controller.ViewController.Begin` | CollectionViewManipulation/ViewController.swift:117-134 | As `PuzzleBoardView.Begin`, on the 4 by 4 functions. |
| `Controller.ViewController.MoveSelectedCell` | CollectionViewManipulation/ViewController.swift:190-246 | As `PuzzleBoardView.MoveSelectedCell`, on the 4 by 4 functions. |
| `Controller.ViewController.EndMoving` | CollectionViewManipulation/ViewController.swift:147-188 | As `PuzzleBoardView.EndMoving`, at side 4. |
| `Controller.ViewController.ResolveTarget` | CollectionViewManipulation/ViewController.swift:155-170 | The stepwise flag equals the commit rule, and the target equals the settling position at side 4. |
| `Controller.ViewController.FinishMove` | CollectionViewManipulation/ViewController.swift:176-187 | The swap on a commit; the board stays a board. |
| `Controller.ViewController.PanGestureDetected` | CollectionViewManipulation/ViewController.swift:113-145 | As `PuzzleBoardView.PanGestureDetected`, at side 4. |

## Left out

- Rendering and layout are not modelled: cell sizes, `floor`, section insets, `layoutSubviews` and `viewDidLayoutSubviews`. The geometry of the cells is a constant `layout`. The model only requires each cell to have a positive size and neighbouring cells to sit side by side without overlapping.
- Animation is not modelled. The completion closure of `endMoving` runs at once, and `FinishMove` stands for it. Disabling the recognizer around the animation (`isEnabled`) is not modelled; with a synchronous completion it is enabled again before the next event.
- Gesture plumbing is not modelled. The recognizer's state, the touched position (`indexPathForItem(at:)`) and the raw translation are parameters. Setting the translation back on the recognizer is the return value of `MoveSelectedCell`.
- `cellForItem(at:)` and `snapshotView(afterScreenUpdates:)` are assumed to always return a view, and their nil branches are not modelled. In the code, a nil `cellForItem(at: itemIdx)` in `.began` returns early and keeps whatever session fields an earlier gesture left (PuzzleBoardView.swift:150-151, ViewController.swift:118-119); the model covers that case through `Begin` with no touched cell. A nil `snapshotView` sets `cellSnapshot` to nil (PuzzleBoardView.swift:155), and a nil `cellForItem(at: targetIndexPath!)` sets `targetCell` to nil (PuzzleBoardView.swift:165); neither of these two is modelled.
- View state is reduced. The snapshot is reduced to its centre, and cells to their centre and size. `alpha`, `removeFromSuperview` and `reloadData()` are not modelled. Cell reuse after `reloadData()` is not modelled either: `movingCell` is a value snapshot taken at `Begin`.
- `GridCellVM` is reduced to its `number`. `GridCell.swift` and the cell's appearance are not part of this model.
- The random `shuffle()` in `awakeFromNib` is a constructor parameter, required to be a permutation of `0 ..< n*n` (the shuffle in `ArrayExtensions.swift` sorts with a random comparator, so it only permutes). `gameSize` is required to be positive.
- `CGFloat` arithmetic is modelled with exact `real`s. Rounding is not modelled.
- Both classes share one `MoveDirection` datatype, since their two enums are identical. `ViewController` has no `from(vector:)`; its `moveDirection(forVector:)` is `Controller.MoveDirectionFor`.
