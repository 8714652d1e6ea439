/**
 The board of the automaton: the grid geometry, the value view of a board
 (a generation), and the operations that create a board and edit one cell.
 */
module Board {

  // Canvas geometry in pixels; the grid size follows from it.
  const Width: int := 800
  const Height: int := 800
  const CellSize: int := 10

  // Math.floor of a quotient of positive numbers is integer division.
  const NumRows: int := Width / CellSize
  const NumCols: int := Height / CellSize

  /** A generation: an immutable snapshot of the board, row by row. */
  type Grid = seq<seq<int>>

  /** The dimensions every board of the program has. */
  ghost predicate WellFormed(g: Grid)
  {
    |g| == NumRows && forall i :: 0 <= i < |g| ==> |g[i]| == NumCols
  }

  ghost predicate InBounds(p: (int, int))
  {
    0 <= p.0 < NumRows && 0 <= p.1 < NumCols
  }

  /** Every cell is Dead (0) or Alive (1). */
  ghost predicate Binary(g: Grid)
  {
    forall i, j :: 0 <= i < |g| && 0 <= j < |g[i]| ==> g[i][j] == 0 || g[i][j] == 1
  }

  ghost predicate AllDead(g: Grid)
  {
    forall i, j :: 0 <= i < |g| && 0 <= j < |g[i]| ==> g[i][j] == 0
  }

  /** The value held by a board array at this moment. */
  ghost function Snapshot(b: array2<int>): (g: Grid)
    reads b
    ensures |g| == b.Length0
    ensures forall i :: 0 <= i < |g| ==> |g[i]| == b.Length1
    ensures forall i, j :: 0 <= i < b.Length0 && 0 <= j < b.Length1 ==> g[i][j] == b[i, j]
  {
    seq(b.Length0, i reads b requires 0 <= i < b.Length0 =>
      seq(b.Length1, j reads b requires 0 <= j < b.Length1 => b[i, j]))
  }

  /**
   The board createBoard builds: NumRows rows of NumRows zeroes. The inner
   length is NumRows, not NumCols; the two are equal, so the board has the
   dimensions of every other board.
   */
  ghost function EmptyGrid(): (g: Grid)
    ensures |g| == NumRows && forall i :: 0 <= i < NumRows ==> |g[i]| == NumRows
    ensures WellFormed(g) && AllDead(g) && Binary(g)
  {
    seq(NumRows, _ => seq(NumRows, _ => 0))
  }

  /** createBoard: a fresh board with every cell Dead. */
  method CreateBoard() returns (b: array2<int>)
    ensures fresh(b)
    ensures b.Length0 == NumRows && b.Length1 == NumRows
    ensures Snapshot(b) == EmptyGrid()
  {
    b := new int[NumRows, NumRows]((_, _) => 0);
    assert forall i :: 0 <= i < NumRows ==> Snapshot(b)[i] == EmptyGrid()[i];
  }

  /** A fresh board holding the same cells as b (the row-by-row copy a step starts from). */
  method CopyBoard(b: array2<int>) returns (copy: array2<int>)
    ensures fresh(copy)
    ensures copy.Length0 == b.Length0 && copy.Length1 == b.Length1
    ensures Snapshot(copy) == Snapshot(b)
  {
    copy := new int[b.Length0, b.Length1]((i, j) reads b requires 0 <= i < b.Length0 && 0 <= j < b.Length1 => b[i, j]);
    assert forall i :: 0 <= i < b.Length0 ==> Snapshot(copy)[i] == Snapshot(b)[i];
  }

  /** The state the click handler writes: a 0 becomes 1 and anything else becomes 0. */
  function Flip(v: int): (w: int)
    ensures w == 0 || w == 1
    ensures (v == 0 || v == 1) ==> w == 1 - v
  {
    if v == 0 then 1 else 0
  }

  /** The board after a click on cell (x, y). */
  ghost function Toggled(g: Grid, x: int, y: int): (t: Grid)
    requires 0 <= x < |g| && 0 <= y < |g[x]|
    ensures |t| == |g| && forall i :: 0 <= i < |g| ==> |t[i]| == |g[i]|
    ensures t[x][y] == Flip(g[x][y])
    ensures forall i, j :: 0 <= i < |g| && 0 <= j < |g[i]| && (i != x || j != y) ==> t[i][j] == g[i][j]
  {
    g[x := g[x][y := Flip(g[x][y])]]
  }

  /**
   A click changes the clicked cell and only it, keeps the board binary, and
   a second click on the same cell restores the board.
   */
  lemma ToggleIsInvolution(g: Grid, x: int, y: int)
    requires WellFormed(g) && Binary(g)
    requires 0 <= x < NumRows && 0 <= y < NumCols
    ensures Toggled(g, x, y)[x][y] != g[x][y]
    ensures WellFormed(Toggled(g, x, y)) && Binary(Toggled(g, x, y))
    ensures Toggled(Toggled(g, x, y), x, y) == g
  {
    var t := Toggled(g, x, y);
    var u := Toggled(t, x, y);
    assert forall i :: 0 <= i < |g| ==> u[i] == g[i];
  }
}
