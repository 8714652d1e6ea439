/**
 Small patterns whose fate under the Conway rule is known: a lone live cell
 dies wherever it stands, and a 2x2 block is a still life, also when it
 straddles an edge of the torus.
 */
module Patterns {
  import opened Board
  import opened Neighbourhood
  import opened Rules

  lemma SubsetCard<T>(a: set<T>, b: set<T>)
    requires a <= b
    ensures |a| <= |b|
  {
    assert b == a + (b - a);
  }

  /** g is a binary board of the program's size whose live cells are exactly those of s. */
  ghost predicate LiveExactly(g: Grid, s: set<(int, int)>)
  {
    WellFormed(g) && Binary(g) &&
    forall i, j :: 0 <= i < NumRows && 0 <= j < NumCols ==> (g[i][j] == 1 <==> (i, j) in s)
  }

  /** On such a board the live neighbours of p are the members of s adjacent to p. */
  lemma LiveNeighboursOf(g: Grid, s: set<(int, int)>, p: (int, int))
    requires LiveExactly(g, s)
    ensures LiveNeighbourSet(g, p) == set q | q in s && InBounds(q) && Adjacent(p, q)
  {
  }

  /** On a board with a single live cell no cell has more than one live neighbour. */
  lemma LoneCellNbors(g: Grid, r: int, c: int, i: int, j: int)
    requires 0 <= r < NumRows && 0 <= c < NumCols
    requires LiveExactly(g, {(r, c)})
    requires 0 <= i < NumRows && 0 <= j < NumCols
    ensures Nbors(g, i, j) <= 1
  {
    NborsCountsLiveNeighbours(g, i, j);
    LiveNeighboursOf(g, {(r, c)}, (i, j));
    SubsetCard(LiveNeighbourSet(g, (i, j)), {(r, c)});
  }

  /** A board with a single live cell, wherever it is, is empty one Conway step later. */
  lemma LoneCellDies(g: Grid, r: int, c: int)
    requires 0 <= r < NumRows && 0 <= c < NumCols
    requires LiveExactly(g, {(r, c)})
    ensures AllDead(GolStep(g))
  {
    forall i, j | 0 <= i < NumRows && 0 <= j < NumCols
      ensures Nbors(g, i, j) <= 1
    {
      LoneCellNbors(g, r, c, i, j);
    }
    SparseBoardDies(g);
  }

  /** The four cells of the 2x2 block whose top-left cell is (a, b), wrapping at the edges. */
  ghost function Block(a: int, b: int): set<(int, int)>
    requires 0 <= a < NumRows && 0 <= b < NumCols
  {
    var a1, b1 := WrapIndex(a, 1, NumRows), WrapIndex(b, 1, NumCols);
    {(a, b), (a, b1), (a1, b), (a1, b1)}
  }

  /** On a ring of at least four, an index within distance one of both a and its successor is one of the two. */
  lemma NearBoth(i: int, a: int, n: int)
    requires 4 <= n && 0 <= i < n && 0 <= a < n
    requires RingDist(i, a, n) <= 1 && RingDist(i, WrapIndex(a, 1, n), n) <= 1
    ensures i == a || i == WrapIndex(a, 1, n)
  {
    RingNear(i, a, n);
    RingNear(i, WrapIndex(a, 1, n), n);
  }

  /** The four cells of a block are distinct. */
  lemma BlockSize(a: int, b: int)
    requires 0 <= a < NumRows && 0 <= b < NumCols
    ensures |Block(a, b)| == 4
  {
    var a1, b1 := WrapIndex(a, 1, NumRows), WrapIndex(b, 1, NumCols);
    assert a != a1 && b != b1;
  }

  /** An index is at ring distance zero from itself and one from its successor. */
  lemma StepNear(a: int, n: int)
    requires 3 <= n && 0 <= a < n
    ensures RingDist(a, a, n) == 0
    ensures RingDist(a, WrapIndex(a, 1, n), n) <= 1 && RingDist(WrapIndex(a, 1, n), a, n) <= 1
  {
    RingNear(a, WrapIndex(a, 1, n), n);
    RingNear(WrapIndex(a, 1, n), a, n);
  }

  /** Each cell of a block is adjacent to the other three. */
  lemma BlockCellsAdjacent(a: int, b: int, p: (int, int))
    requires 0 <= a < NumRows && 0 <= b < NumCols && p in Block(a, b)
    ensures (set q | q in Block(a, b) && InBounds(q) && Adjacent(p, q)) == Block(a, b) - {p}
  {
    StepNear(a, NumRows);
    StepNear(b, NumCols);
  }

  /** A cell of a block has exactly three live neighbours. */
  lemma BlockCellNeighbours(g: Grid, a: int, b: int, p: (int, int))
    requires 0 <= a < NumRows && 0 <= b < NumCols
    requires LiveExactly(g, Block(a, b)) && p in Block(a, b)
    ensures Nbors(g, p.0, p.1) == 3
  {
    NborsCountsLiveNeighbours(g, p.0, p.1);
    LiveNeighboursOf(g, Block(a, b), p);
    BlockCellsAdjacent(a, b, p);
    BlockSize(a, b);
  }

  /** A cell outside a block is adjacent to at most two of its cells. */
  lemma OutsideBlockNeighbours(g: Grid, a: int, b: int, p: (int, int))
    requires 0 <= a < NumRows && 0 <= b < NumCols
    requires LiveExactly(g, Block(a, b)) && InBounds(p) && p !in Block(a, b)
    ensures Nbors(g, p.0, p.1) <= 2
  {
    var a1, b1 := WrapIndex(a, 1, NumRows), WrapIndex(b, 1, NumCols);
    NborsCountsLiveNeighbours(g, p.0, p.1);
    LiveNeighboursOf(g, Block(a, b), p);
    var near := LiveNeighbourSet(g, p);
    if RingDist(p.0, a, NumRows) > 1 {
      SubsetCard(near, {(a1, b), (a1, b1)});
    } else if RingDist(p.0, a1, NumRows) > 1 {
      SubsetCard(near, {(a, b), (a, b1)});
    } else if RingDist(p.1, b, NumCols) > 1 {
      SubsetCard(near, {(a, b1), (a1, b1)});
    } else if RingDist(p.1, b1, NumCols) > 1 {
      SubsetCard(near, {(a, b), (a1, b)});
    } else {
      NearBoth(p.0, a, NumRows);
      NearBoth(p.1, b, NumCols);
      assert false;
    }
  }

  /** Every cell keeps its state: block cells survive with three neighbours, no other cell has three. */
  lemma BlockCellFate(g: Grid, a: int, b: int, i: int, j: int)
    requires 0 <= a < NumRows && 0 <= b < NumCols
    requires LiveExactly(g, Block(a, b))
    requires 0 <= i < NumRows && 0 <= j < NumCols
    ensures GolCell(g[i][j], Nbors(g, i, j)) == g[i][j]
  {
    if (i, j) in Block(a, b) {
      BlockCellNeighbours(g, a, b, (i, j));
    } else {
      OutsideBlockNeighbours(g, a, b, (i, j));
    }
  }

  /** A 2x2 block, anywhere on the torus, is unchanged by a Conway step. */
  lemma BlockIsStillLife(g: Grid, a: int, b: int)
    requires 0 <= a < NumRows && 0 <= b < NumCols
    requires LiveExactly(g, Block(a, b))
    ensures GolStep(g) == g
  {
    forall i, j | 0 <= i < NumRows && 0 <= j < NumCols
      ensures GolCell(g[i][j], Nbors(g, i, j)) == g[i][j]
    {
      BlockCellFate(g, a, b, i, j);
    }
    CellsKeptIsStillLife(g);
  }
}
