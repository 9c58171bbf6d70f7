/** The board of a `gameSize` by `gameSize` puzzle, stored row-major in one sequence of tile
    numbers in which 0 marks the empty slot: neighbours of a position, the legality check,
    and the permutation invariant. */
module Grid {
  import opened Optional
  import opened Directions

  /** Row and column of position `idx` on a board of side `n`. */
  function Row(n: int, idx: int): int
    requires n > 0
  {
    idx / n
  }

  function Col(n: int, idx: int): int
    requires n > 0
  {
    idx % n
  }

  /** `indexPath(fromIndexPath:direction:)`: the position one step away from `idx`,
      or `None` when that step leaves the board. */
  function Neighbour(n: int, idx: int, d: MoveDirection): (r: Option<int>)
    requires n > 0 && 0 <= idx < n * n
    ensures r.Some? ==> 0 <= r.value < n * n
  {
    match d
    case Up => if idx - n < 0 then None else Some(idx - n)
    case Down => if idx + n >= n * n then None else Some(idx + n)
    case Left =>
      if idx % n == 0 then None
      else
        assert idx != 0;
        Some(idx - 1)
    case Right =>
      if (idx + 1) % n == 0 then None
      else
        ProductMod(n);
        Some(idx + 1)
  }

  /** The row and column steps of a direction; rows grow downwards. */
  function RowStep(d: MoveDirection): int {
    match d
    case Up => -1
    case Down => 1
    case Left => 0
    case Right => 0
  }

  function ColStep(d: MoveDirection): int {
    match d
    case Up => 0
    case Down => 0
    case Left => -1
    case Right => 1
  }

  /** Whether position `idx` lies on the border that `d` points at. */
  predicate AtBorder(n: int, idx: int, d: MoveDirection)
    requires n > 0
  {
    match d
    case Up => Row(n, idx) == 0
    case Down => Row(n, idx) == n - 1
    case Left => Col(n, idx) == 0
    case Right => Col(n, idx) == n - 1
  }

  // ---- division facts used by the neighbour proofs

  lemma MulLe(a: int, b: int, n: int)
    requires a <= b && n >= 0
    ensures a * n <= b * n
  {
    assert b * n - a * n == (b - a) * n;
  }

  lemma MulSign(k: int, n: int)
    requires n > 0
    ensures k >= 1 ==> k * n >= n
    ensures k <= -1 ==> k * n <= -n
  {
    if k >= 1 {
      MulLe(1, k, n);
    } else if k <= -1 {
      MulLe(k, -1, n);
    }
  }

  lemma DivModUnique(a: int, n: int, q: int, r: int)
    requires n > 0 && 0 <= r < n && a == q * n + r
    ensures a / n == q && a % n == r
  {
    var q', r' := a / n, a % n;
    assert a == q' * n + r';
    assert (q - q') * n == r' - r;
    MulSign(q - q', n);
  }

  lemma ProductMod(n: int)
    requires n > 0
    ensures (n * n) % n == 0
  {
    DivModUnique(n * n, n, n, 0);
  }

  /** A position decomposes into its row and column. */
  lemma RowCol(n: int, idx: int)
    requires n > 0 && 0 <= idx < n * n
    ensures idx == Row(n, idx) * n + Col(n, idx)
    ensures 0 <= Row(n, idx) < n && 0 <= Col(n, idx) < n
  {
    var q, r := idx / n, idx % n;
    assert idx == q * n + r;
    if q < 0 {
      MulLe(q, -1, n);
    }
    if q >= n {
      MulLe(n, q, n);
    }
  }

  /** One row up: `idx - n` leaves the board exactly on the first row, and otherwise keeps
      the column. */
  lemma UpStep(n: int, idx: int)
    requires n > 0 && 0 <= idx < n * n
    ensures idx - n < 0 <==> Row(n, idx) == 0
    ensures idx - n >= 0 ==> Row(n, idx - n) == Row(n, idx) - 1 && Col(n, idx - n) == Col(n, idx)
  {
    var q, r := idx / n, idx % n;
    RowCol(n, idx);
    if q != 0 {
      assert idx - n == (q - 1) * n + r;
      DivModUnique(idx - n, n, q - 1, r);
    }
  }

  /** One row down: `idx + n` leaves the board exactly on the last row, and otherwise keeps
      the column. */
  lemma DownStep(n: int, idx: int)
    requires n > 0 && 0 <= idx < n * n
    ensures idx + n >= n * n <==> Row(n, idx) == n - 1
    ensures idx + n < n * n ==> Row(n, idx + n) == Row(n, idx) + 1 && Col(n, idx + n) == Col(n, idx)
  {
    var q, r := idx / n, idx % n;
    RowCol(n, idx);
    assert (n - 1) * n + n == n * n;
    if q == n - 1 {
      assert idx + n == n * n + r;
    } else {
      MulLe(q + 1, n - 1, n);
      assert idx + n == (q + 1) * n + r;
      DivModUnique(idx + n, n, q + 1, r);
    }
  }

  /** One column left or right stays on the row unless it crosses the border. */
  lemma SideSteps(n: int, idx: int)
    requires n > 0 && 0 <= idx < n * n
    ensures Col(n, idx) != 0 ==> Row(n, idx - 1) == Row(n, idx) && Col(n, idx - 1) == Col(n, idx) - 1
    ensures (idx + 1) % n == 0 <==> Col(n, idx) == n - 1
    ensures Col(n, idx) != n - 1 ==> Row(n, idx + 1) == Row(n, idx) && Col(n, idx + 1) == Col(n, idx) + 1
  {
    var q, r := idx / n, idx % n;
    RowCol(n, idx);
    if r != 0 {
      DivModUnique(idx - 1, n, q, r - 1);
    }
    if r == n - 1 {
      DivModUnique(idx + 1, n, q + 1, 0);
    } else {
      DivModUnique(idx + 1, n, q, r + 1);
    }
  }

  /** The neighbour function is a step of one row or one column on the grid, and it is
      `None` exactly at the border in that direction. */
  lemma {:induction false} NeighbourIsGridStep(n: int, idx: int, d: MoveDirection)
    requires n > 0 && 0 <= idx < n * n
    ensures Neighbour(n, idx, d).None? <==> AtBorder(n, idx, d)
    ensures Neighbour(n, idx, d).Some? ==>
      var j := Neighbour(n, idx, d).value;
      Row(n, j) == Row(n, idx) + RowStep(d) && Col(n, j) == Col(n, idx) + ColStep(d)
  {
    match d
    case Up => UpStep(n, idx);
    case Down => DownStep(n, idx);
    case Left => SideSteps(n, idx);
    case Right => SideSteps(n, idx);
  }

  function Opposite(d: MoveDirection): MoveDirection {
    match d
    case Up => Down
    case Down => Up
    case Left => Right
    case Right => Left
  }

  /** Stepping back in the opposite direction returns to the starting position. */
  lemma NeighbourInverse(n: int, idx: int, d: MoveDirection)
    requires n > 0 && 0 <= idx < n * n
    ensures Neighbour(n, idx, d).Some? ==>
      Neighbour(n, Neighbour(n, idx, d).value, Opposite(d)) == Some(idx)
  {
  }

  /** Different directions never lead to the same position. */
  lemma NeighboursDistinct(n: int, idx: int, d: MoveDirection, e: MoveDirection)
    requires n > 0 && 0 <= idx < n * n
    requires d != e && Neighbour(n, idx, d).Some? && Neighbour(n, idx, e).Some?
    ensures Neighbour(n, idx, d).value != Neighbour(n, idx, e).value
  {
    NeighbourIsGridStep(n, idx, d);
    NeighbourIsGridStep(n, idx, e);
  }

  // ---- the legality check

  /** The neighbour of `idx` in direction `d` exists and holds the empty slot. */
  predicate Opens(n: int, board: seq<int>, idx: int, d: MoveDirection)
    requires n > 0 && |board| == n * n && 0 <= idx < n * n
  {
    var t := Neighbour(n, idx, d);
    t.Some? && board[t.value] == 0
  }

  /** The fixed order in which the legality check tries the directions. */
  function Rank(d: MoveDirection): int {
    match d
    case Up => 0
    case Down => 1
    case Left => 2
    case Right => 3
  }

  /** `availableDirectionToMove(forIndexPath:)`: the first of up, down, left, right whose
      neighbour holds 0, or `None` when the tile at `idx` cannot move. */
  function AvailableDirection(n: int, board: seq<int>, idx: int): (r: Option<MoveDirection>)
    requires n > 0 && |board| == n * n && 0 <= idx < n * n
    ensures r.Some? ==> Opens(n, board, idx, r.value)
    ensures r.Some? ==> forall e :: Rank(e) < Rank(r.value) ==> !Opens(n, board, idx, e)
    ensures r.None? <==>
      !Opens(n, board, idx, Up) && !Opens(n, board, idx, Down) &&
      !Opens(n, board, idx, Left) && !Opens(n, board, idx, Right)
  {
    var up := Neighbour(n, idx, Up);
    var down := Neighbour(n, idx, Down);
    var left := Neighbour(n, idx, Left);
    var right := Neighbour(n, idx, Right);
    if up.Some? && board[up.value] == 0 then Some(Up)
    else if down.Some? && board[down.value] == 0 then Some(Down)
    else if left.Some? && board[left.value] == 0 then Some(Left)
    else if right.Some? && board[right.value] == 0 then Some(Right)
    else None
  }

  // ---- the board invariant

  /** The numbers 0, 1, ..., m - 1 in order: the board as built before the shuffle. */
  function Iota(m: nat): (r: seq<int>)
    ensures |r| == m && forall i :: 0 <= i < m ==> r[i] == i
  {
    if m == 0 then [] else
      var r := Iota(m - 1) + [m - 1];
      assert forall i :: 0 <= i < m - 1 ==> r[i] == Iota(m - 1)[i];
      r
  }

  /** A board of side `n` holds every number of 0 .. n*n - 1 exactly once, and nothing else. */
  ghost predicate IsBoard(n: int, board: seq<int>)
  {
    && n > 0 && |board| == n * n
    && forall v :: multiset(board)[v] == if 0 <= v < n * n then 1 else 0
  }

  /** The numbers in order occur once each. */
  lemma {:induction false} IotaCounts(m: nat)
    ensures forall v :: multiset(Iota(m))[v] == if 0 <= v < m then 1 else 0
  {
    if m > 0 {
      IotaCounts(m - 1);
      assert Iota(m) == Iota(m - 1) + [m - 1];
    }
  }

  /** The board as built before the shuffle, every number at its own position, is a board. */
  lemma InOrderIsBoard(n: int, board: seq<int>)
    requires n > 0 && |board| == n * n
    requires forall i :: 0 <= i < n * n ==> board[i] == i
    ensures IsBoard(n, board)
  {
    IotaCounts(n * n);
    assert board == Iota(n * n);
  }

  /** On a board the empty slot is held by one position only. */
  lemma SingleEmpty(n: int, board: seq<int>, i: int)
    requires IsBoard(n, board)
    requires 0 <= i < |board| && board[i] == 0
    ensures forall j :: 0 <= j < |board| && j != i ==> board[j] != 0
  {
    MulLe(1, n, n);
    assert multiset(board)[0] == 1;
    var before, after := board[..i], board[i + 1..];
    assert 0 !in multiset(before) && 0 !in multiset(after) by {
      assert board == before + [0] + after;
      assert multiset(board) == multiset(before) + multiset{0} + multiset(after);
    }
    forall j | 0 <= j < |board| && j != i
      ensures board[j] != 0
    {
      if j < i {
        assert board[j] == before[j] && board[j] in multiset(before);
      } else {
        assert board[j] == after[j - i - 1] && board[j] in multiset(after);
      }
    }
  }

  /** On a board, a direction that opens onto the empty slot is the one the legality
      check returns: no other direction can also qualify. */
  lemma AvailableDirectionIsUnique(n: int, board: seq<int>, idx: int, d: MoveDirection)
    requires IsBoard(n, board) && 0 <= idx < n * n
    requires Opens(n, board, idx, d)
    ensures AvailableDirection(n, board, idx) == Some(d)
  {
    SingleEmpty(n, board, Neighbour(n, idx, d).value);
    forall e | e != d
      ensures !Opens(n, board, idx, e)
    {
      if Neighbour(n, idx, e).Some? {
        NeighboursDistinct(n, idx, d, e);
      }
    }
  }

  /** `swapAt(i, j)` on a board sequence. */
  function Swapped(board: seq<int>, i: int, j: int): (r: seq<int>)
    requires 0 <= i < |board| && 0 <= j < |board|
    ensures |r| == |board| && r[i] == board[j] && r[j] == board[i]
    ensures forall k :: 0 <= k < |board| && k != i && k != j ==> r[k] == board[k]
    ensures multiset(r) == multiset(board)
  {
    board[i := board[j]][j := board[i]]
  }

  /** Swapping the same two positions twice gives the board back. */
  lemma SwapTwiceRestores(board: seq<int>, i: int, j: int)
    requires 0 <= i < |board| && 0 <= j < |board|
    ensures Swapped(Swapped(board, i, j), i, j) == board
  {
  }

  /** A swap keeps a board a board, and swapping a position with itself changes nothing. */
  lemma SwapKeepsBoard(n: int, board: seq<int>, i: int, j: int)
    requires IsBoard(n, board) && 0 <= i < |board| && 0 <= j < |board|
    ensures IsBoard(n, Swapped(board, i, j))
    ensures i == j ==> Swapped(board, i, j) == board
  {
  }
}
