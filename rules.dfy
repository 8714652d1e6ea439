/**
 The two generation rules: the per-cell decision of each, the next
 generation as a function of the previous one, and the step methods that
 copy the board and overwrite the changed cells in place.
 */
module Rules {
  import opened Board
  import opened Neighbourhood

  /**
   computeNextBoardGol's decision for one cell with state v and n live
   neighbours: B3/S23 for a 0/1 cell, and death by underpopulation whatever
   the cell holds.
   */
  function GolCell(v: int, n: int): (w: int)
    ensures (v == 0 || v == 1) ==> (w == 0 || w == 1)
    ensures (v == 0 || v == 1) ==> (w == 1 <==> (v == 0 && n == 3) || (v == 1 && (n == 2 || n == 3)))
    ensures n <= 1 ==> w == 0
  {
    if v == 0 then (if n == 3 then 1 else v)
    else (if n != 2 && n != 3 then 0 else v)
  }

  /**
   computeNextBoardSeeds's decision for one cell with state v and n live
   neighbours: always 0 or 1, and 1 exactly for a 0 cell with two neighbours.
   */
  function SeedsCell(v: int, n: int): (w: int)
    ensures w == 0 || w == 1
    ensures w == 1 <==> v == 0 && n == 2
  {
    if v == 0 then (if n == 2 then 1 else v) else 0
  }

  /** The Conway generation after g: every cell decided from g alone. */
  ghost function GolStep(g: Grid): (h: Grid)
    requires WellFormed(g)
    ensures WellFormed(h)
  {
    seq(NumRows, r requires 0 <= r < NumRows =>
      seq(NumCols, c requires 0 <= c < NumCols => GolCell(g[r][c], Nbors(g, r, c))))
  }

  /** The Seeds generation after g: every cell decided from g alone. */
  ghost function SeedsStep(g: Grid): (h: Grid)
    requires WellFormed(g)
    ensures WellFormed(h)
  {
    seq(NumRows, r requires 0 <= r < NumRows =>
      seq(NumCols, c requires 0 <= c < NumCols => SeedsCell(g[r][c], Nbors(g, r, c))))
  }

  /**
   Conway's B3/S23: on a binary board a cell is alive in the next generation
   exactly when it is dead with three live neighbours or alive with two or
   three, and dead otherwise; the next generation is binary again.
   */
  lemma GolStepIsB3S23(g: Grid, r: int, c: int)
    requires WellFormed(g) && Binary(g) && 0 <= r < NumRows && 0 <= c < NumCols
    ensures var n := Nbors(g, r, c);
            GolStep(g)[r][c] == if (g[r][c] == 0 && n == 3) || (g[r][c] == 1 && (n == 2 || n == 3)) then 1 else 0
  {
  }

  /**
   Seeds, B2/S: on a binary board a cell is alive in the next generation
   exactly when it is dead with two live neighbours; every live cell dies,
   whatever its count.
   */
  lemma SeedsStepIsB2S(g: Grid, r: int, c: int)
    requires WellFormed(g) && Binary(g) && 0 <= r < NumRows && 0 <= c < NumCols
    ensures SeedsStep(g)[r][c] == if g[r][c] == 0 && Nbors(g, r, c) == 2 then 1 else 0
    ensures g[r][c] == 1 ==> SeedsStep(g)[r][c] == 0
  {
  }

  /** Both rules keep every cell Dead or Alive. */
  lemma StepsPreserveBinary(g: Grid)
    requires WellFormed(g) && Binary(g)
    ensures Binary(GolStep(g)) && Binary(SeedsStep(g))
  {
  }

  /** A board with no live cell stays that way under both rules. */
  lemma AllDeadIsFixedPoint(g: Grid)
    requires WellFormed(g) && AllDead(g)
    ensures GolStep(g) == g && SeedsStep(g) == g
  {
    forall r, c | 0 <= r < NumRows && 0 <= c < NumCols
      ensures GolStep(g)[r][c] == g[r][c] && SeedsStep(g)[r][c] == g[r][c]
    {
      NborsOfAllDead(g, r, c, 8);
    }
    assert forall r :: 0 <= r < NumRows ==> GolStep(g)[r] == g[r];
    assert forall r :: 0 <= r < NumRows ==> SeedsStep(g)[r] == g[r];
  }

  /** Underpopulation: a board on which no cell has more than one live neighbour is empty one Conway step later. */
  lemma SparseBoardDies(g: Grid)
    requires WellFormed(g)
    requires forall r, c :: 0 <= r < NumRows && 0 <= c < NumCols ==> Nbors(g, r, c) <= 1
    ensures AllDead(GolStep(g))
  {
  }

  /** A board each of whose cells the Conway rule keeps is a Conway still life. */
  lemma CellsKeptIsStillLife(g: Grid)
    requires WellFormed(g)
    requires forall r, c :: 0 <= r < NumRows && 0 <= c < NumCols ==> GolCell(g[r][c], Nbors(g, r, c)) == g[r][c]
    ensures GolStep(g) == g
  {
    assert forall r :: 0 <= r < NumRows ==> GolStep(g)[r] == g[r];
  }

  /**
   computeNextBoardGol: a fresh copy of the previous board whose cells are
   then overwritten where the rule changes them. Every count is taken on the
   previous board, which the step does not change.
   */
  method StepGol(prev: array2<int>) returns (next: array2<int>)
    requires prev.Length0 == NumRows && prev.Length1 == NumCols
    ensures fresh(next)
    ensures next.Length0 == NumRows && next.Length1 == NumCols
    ensures Snapshot(next) == GolStep(Snapshot(prev))
  {
    ghost var g := Snapshot(prev);
    next := CopyBoard(prev);
    for r := 0 to NumRows
      invariant Snapshot(prev) == g
      invariant forall i, j :: 0 <= i < NumRows && 0 <= j < NumCols ==>
        next[i, j] == if i < r then GolCell(g[i][j], Nbors(g, i, j)) else g[i][j]
    {
      for c := 0 to NumCols
        invariant Snapshot(prev) == g
        invariant forall i, j :: 0 <= i < NumRows && 0 <= j < NumCols ==>
          next[i, j] == if i < r || (i == r && j < c) then GolCell(g[i][j], Nbors(g, i, j)) else g[i][j]
      {
        var aliveCount := CountNbors(prev, r, c);
        if prev[r, c] == 0 {
          if aliveCount == 3 {
            next[r, c] := 1;
          }
        } else {
          if aliveCount != 2 && aliveCount != 3 {
            next[r, c] := 0;
          }
        }
      }
    }
    assert forall i :: 0 <= i < NumRows ==> Snapshot(next)[i] == GolStep(g)[i];
  }

  /**
   computeNextBoardSeeds: a fresh copy of the previous board whose cells are
   then overwritten where the rule changes them. Every count is taken on the
   previous board, which the step does not change.
   */
  method StepSeeds(prev: array2<int>) returns (next: array2<int>)
    requires prev.Length0 == NumRows && prev.Length1 == NumCols
    ensures fresh(next)
    ensures next.Length0 == NumRows && next.Length1 == NumCols
    ensures Snapshot(next) == SeedsStep(Snapshot(prev))
  {
    ghost var g := Snapshot(prev);
    next := CopyBoard(prev);
    for r := 0 to NumRows
      invariant Snapshot(prev) == g
      invariant forall i, j :: 0 <= i < NumRows && 0 <= j < NumCols ==>
        next[i, j] == if i < r then SeedsCell(g[i][j], Nbors(g, i, j)) else g[i][j]
    {
      for c := 0 to NumCols
        invariant Snapshot(prev) == g
        invariant forall i, j :: 0 <= i < NumRows && 0 <= j < NumCols ==>
          next[i, j] == if i < r || (i == r && j < c) then SeedsCell(g[i][j], Nbors(g, i, j)) else g[i][j]
      {
        var aliveCount := CountNbors(prev, r, c);
        if prev[r, c] == 0 {
          if aliveCount == 2 {
            next[r, c] := 1;
          }
        } else {
          next[r, c] := 0;
        }
      }
    }
    assert forall i :: 0 <= i < NumRows ==> Snapshot(next)[i] == SeedsStep(g)[i];
  }
}
