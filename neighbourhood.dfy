/**
 Counting the live cells of a Moore neighbourhood on the torus: the index
 arithmetic of countNbors, the count as a specification function, the
 counting loop proved against it, and the count's independent meaning as the
 number of live cells adjacent to the centre.
 */
module Neighbourhood {
  import opened Board

  /** x % n worked out for a dividend within a few periods of zero. */
  lemma ModCases(x: int, n: int)
    requires n > 0 && -n <= x < 3 * n
    ensures x % n == if x < 0 then x + n else if x < n then x else if x < 2 * n then x - n else x - 2 * n
  {
    var q, r := x / n, x % n;
    assert x == q * n + r;
  }

  /** JavaScript's %: the remainder truncates toward zero and takes the sign of the dividend. */
  function JsRem(a: int, n: int): (r: int)
    requires n > 0
    ensures a >= 0 ==> 0 <= r < n
    ensures a < 0 ==> -n < r <= 0
  {
    if a >= 0 then a % n else -((-a) % n)
  }

  /**
   The wrapped index (i + d + n) % n of countNbors. For an in-range i the
   index is in range, and it moves by d except across an edge, where it
   jumps to the opposite edge.
   */
  function WrapIndex(i: int, d: int, n: int): (w: int)
    requires 0 <= i < n && -1 <= d <= 1
    ensures 0 <= w < n
    ensures w == if i + d < 0 then n - 1 else if i + d >= n then 0 else i + d
  {
    ModCases(i + d + n, n);
    JsRem(i + d + n, n)
  }

  /** The (dr, dc) pairs the nested loops of countNbors visit, in order, once the centre is skipped. */
  const Offsets: seq<(int, int)> :=
    [(-1, -1), (-1, 0), (-1, 1), (0, -1), (0, 1), (1, -1), (1, 0), (1, 1)]

  /**
   Offsets is the visiting order of the loops: the eight (dr, dc) steps in
   -1..1 other than (0, 0), in row-major order, each found at the position
   OffsetIndex gives it.
   */
  lemma OffsetsAreLoopOrder()
    ensures |Offsets| == 8
    ensures forall k :: 0 <= k < 8 ==> -1 <= Offsets[k].0 <= 1 && -1 <= Offsets[k].1 <= 1 && Offsets[k] != (0, 0)
    ensures forall k :: 0 <= k < 7 ==>
      Offsets[k].0 < Offsets[k + 1].0 || (Offsets[k].0 == Offsets[k + 1].0 && Offsets[k].1 < Offsets[k + 1].1)
    ensures forall dr, dc :: -1 <= dr <= 1 && -1 <= dc <= 1 && (dr != 0 || dc != 0) ==>
      0 <= OffsetIndex(dr, dc) < 8 && Offsets[OffsetIndex(dr, dc)] == (dr, dc)
  {
  }

  /** The k-th cell countNbors looks at for centre (r0, c0). */
  function Neighbour(r0: int, c0: int, k: int): (p: (int, int))
    requires 0 <= r0 < NumRows && 0 <= c0 < NumCols && 0 <= k < 8
    ensures InBounds(p)
  {
    (WrapIndex(r0, Offsets[k].0, NumRows), WrapIndex(c0, Offsets[k].1, NumCols))
  }

  /** The cell at p is on the board and holds 1 (the source's `=== 1` test). */
  ghost predicate IsLive(g: Grid, p: (int, int))
  {
    0 <= p.0 < |g| && 0 <= p.1 < |g[p.0]| && g[p.0][p.1] == 1
  }

  /** The number of live cells among the first k cells countNbors looks at. */
  ghost function CountFirst(g: Grid, r0: int, c0: int, k: int): (n: nat)
    requires 0 <= r0 < NumRows && 0 <= c0 < NumCols && 0 <= k <= 8
    ensures n <= k
  {
    if k == 0 then 0
    else CountFirst(g, r0, c0, k - 1) + (if IsLive(g, Neighbour(r0, c0, k - 1)) then 1 else 0)
  }

  /** The specification of countNbors: the live cells among the eight it looks at. */
  ghost function Nbors(g: Grid, r0: int, c0: int): (n: nat)
    requires 0 <= r0 < NumRows && 0 <= c0 < NumCols
    ensures n <= 8
  {
    CountFirst(g, r0, c0, 8)
  }

  /** How many cells countNbors has looked at when its loops reach (dr, dc). */
  function OffsetIndex(dr: int, dc: int): (k: int)
  {
    3 * (dr + 1) + (dc + 1) - (if dr > 0 || (dr == 0 && dc > 0) then 1 else 0)
  }

  /** At loop position (dr, dc) countNbors reads the next cell of Neighbour. */
  lemma NeighbourAt(r0: int, c0: int, dr: int, dc: int)
    requires 0 <= r0 < NumRows && 0 <= c0 < NumCols
    requires -1 <= dr <= 1 && -1 <= dc <= 1 && (dr != 0 || dc != 0)
    ensures 0 <= OffsetIndex(dr, dc) < 8
    ensures Neighbour(r0, c0, OffsetIndex(dr, dc)) == (JsRem(r0 + dr + NumRows, NumRows), JsRem(c0 + dc + NumCols, NumCols))
  {
    assert Offsets[OffsetIndex(dr, dc)] == (dr, dc);
  }

  /** One non-centre step of the loops adds the cell read there to the count. */
  lemma CountAdvance(g: Grid, r0: int, c0: int, dr: int, dc: int)
    requires 0 <= r0 < NumRows && 0 <= c0 < NumCols
    requires -1 <= dr <= 1 && -1 <= dc <= 1 && (dr != 0 || dc != 0)
    ensures 0 <= OffsetIndex(dr, dc) < OffsetIndex(dr, dc + 1) == OffsetIndex(dr, dc) + 1 <= 8
    ensures CountFirst(g, r0, c0, OffsetIndex(dr, dc + 1)) ==
            CountFirst(g, r0, c0, OffsetIndex(dr, dc)) +
            (if IsLive(g, (JsRem(r0 + dr + NumRows, NumRows), JsRem(c0 + dc + NumCols, NumCols))) then 1 else 0)
  {
    NeighbourAt(r0, c0, dr, dc);
  }

  /** A cell of a board is live in its snapshot exactly when the array holds 1 there. */
  lemma SnapshotLive(b: array2<int>, r: int, c: int)
    requires b.Length0 == NumRows && b.Length1 == NumCols
    requires 0 <= r < NumRows && 0 <= c < NumCols
    ensures IsLive(Snapshot(b), (r, c)) <==> b[r, c] == 1
  {
  }

  /** countNbors, reading the board it is given. */
  method CountNbors(b: array2<int>, r0: int, c0: int) returns (count: int)
    requires b.Length0 == NumRows && b.Length1 == NumCols
    requires 0 <= r0 < NumRows && 0 <= c0 < NumCols
    ensures count == Nbors(Snapshot(b), r0, c0)
  {
    ghost var g := Snapshot(b);
    count := 0;
    for dr := -1 to 2
      invariant count == CountFirst(g, r0, c0, OffsetIndex(dr, -1))
    {
      for dc := -1 to 2
        invariant count == CountFirst(g, r0, c0, OffsetIndex(dr, dc))
      {
        if dr != 0 || dc != 0 {
          var r := JsRem(r0 + dr + NumRows, NumRows);
          var c := JsRem(c0 + dc + NumCols, NumCols);
          CountAdvance(g, r0, c0, dr, dc);
          SnapshotLive(b, r, c);
          if b[r, c] == 1 {
            count := count + 1;
          }
        }
      }
    }
  }

  // ---------------------------------------------------------------------
  // The count's meaning, independently of the loop: live cells adjacent to
  // the centre on the torus.

  /** The distance between indices a and b on a ring of n positions. */
  function RingDist(a: int, b: int, n: int): (d: int)
    requires n > 0
    ensures 0 <= d
  {
    var m := (a - b) % n;
    if m <= n - m then m else n - m
  }

  /** q is one of the eight cells surrounding p on the torus. */
  ghost predicate Adjacent(p: (int, int), q: (int, int))
  {
    p != q && RingDist(p.0, q.0, NumRows) <= 1 && RingDist(p.1, q.1, NumCols) <= 1
  }

  /** The live cells of the board adjacent to p. */
  ghost function LiveNeighbourSet(g: Grid, p: (int, int)): set<(int, int)>
  {
    set r, c | 0 <= r < NumRows && 0 <= c < NumCols && Adjacent(p, (r, c)) && IsLive(g, (r, c)) :: (r, c)
  }

  /** On a ring of at least three, the indices within distance one of a are exactly its two wrapped steps and itself. */
  lemma RingNear(a: int, b: int, n: int)
    requires 3 <= n && 0 <= a < n && 0 <= b < n
    ensures RingDist(a, b, n) <= 1 <==> b == a || b == WrapIndex(a, -1, n) || b == WrapIndex(a, 1, n)
  {
    ModCases(a - b, n);
  }

  /** The eight cells countNbors looks at, by row step and column step. */
  lemma NeighbourListed(r0: int, c0: int, k: int)
    requires 0 <= r0 < NumRows && 0 <= c0 < NumCols && 0 <= k < 8
    ensures var rs := [WrapIndex(r0, -1, NumRows), r0, WrapIndex(r0, 1, NumRows)];
            var cs := [WrapIndex(c0, -1, NumCols), c0, WrapIndex(c0, 1, NumCols)];
            Neighbour(r0, c0, k) == (rs[Offsets[k].0 + 1], cs[Offsets[k].1 + 1])
  {
  }

  /** The eight cells countNbors looks at are pairwise distinct. */
  lemma NeighboursDistinct(r0: int, c0: int, k1: int, k2: int)
    requires 0 <= r0 < NumRows && 0 <= c0 < NumCols && 0 <= k1 < k2 < 8
    ensures Neighbour(r0, c0, k1) != Neighbour(r0, c0, k2)
  {
    NeighbourListed(r0, c0, k1);
    NeighbourListed(r0, c0, k2);
    assert Offsets[k1] != Offsets[k2];
  }

  /** Each cell countNbors looks at is adjacent to the centre. */
  lemma NeighbourIsAdjacent(r0: int, c0: int, k: int)
    requires 0 <= r0 < NumRows && 0 <= c0 < NumCols && 0 <= k < 8
    ensures Adjacent((r0, c0), Neighbour(r0, c0, k))
  {
    var p := Neighbour(r0, c0, k);
    NeighbourListed(r0, c0, k);
    RingNear(r0, p.0, NumRows);
    RingNear(c0, p.1, NumCols);
  }

  /** Every in-bounds cell adjacent to the centre is one countNbors looks at. */
  lemma AdjacentIsNeighbour(r0: int, c0: int, q: (int, int)) returns (k: int)
    requires 0 <= r0 < NumRows && 0 <= c0 < NumCols
    requires InBounds(q) && Adjacent((r0, c0), q)
    ensures 0 <= k < 8 && Neighbour(r0, c0, k) == q
  {
    RingNear(r0, q.0, NumRows);
    RingNear(c0, q.1, NumCols);
    var dr := if q.0 == r0 then 0 else if q.0 == WrapIndex(r0, -1, NumRows) then -1 else 1;
    var dc := if q.1 == c0 then 0 else if q.1 == WrapIndex(c0, -1, NumCols) then -1 else 1;
    k := OffsetIndex(dr, dc);
    NeighbourAt(r0, c0, dr, dc);
  }

  /** The live cells among the first k cells countNbors looks at. */
  ghost function LiveFirst(g: Grid, r0: int, c0: int, k: int): set<(int, int)>
    requires 0 <= r0 < NumRows && 0 <= c0 < NumCols && 0 <= k <= 8
  {
    set i | 0 <= i < k && IsLive(g, Neighbour(r0, c0, i)) :: Neighbour(r0, c0, i)
  }

  /** LiveFirst grows by the k-th cell when that cell is live, and the cell is new. */
  lemma LiveFirstStep(g: Grid, r0: int, c0: int, k: int)
    requires 0 <= r0 < NumRows && 0 <= c0 < NumCols && 0 < k <= 8
    ensures Neighbour(r0, c0, k - 1) !in LiveFirst(g, r0, c0, k - 1)
    ensures LiveFirst(g, r0, c0, k) ==
      LiveFirst(g, r0, c0, k - 1) + (if IsLive(g, Neighbour(r0, c0, k - 1)) then {Neighbour(r0, c0, k - 1)} else {})
  {
    forall i | 0 <= i < k - 1
      ensures Neighbour(r0, c0, i) != Neighbour(r0, c0, k - 1)
    {
      NeighboursDistinct(r0, c0, i, k - 1);
    }
  }

  /** Because the cells are distinct, CountFirst is the number of distinct live cells among them. */
  lemma {:induction false} CountFirstIsCard(g: Grid, r0: int, c0: int, k: int)
    requires 0 <= r0 < NumRows && 0 <= c0 < NumCols && 0 <= k <= 8
    ensures CountFirst(g, r0, c0, k) == |LiveFirst(g, r0, c0, k)|
  {
    if k > 0 {
      CountFirstIsCard(g, r0, c0, k - 1);
      LiveFirstStep(g, r0, c0, k);
    }
  }

  /**
   countNbors counts the live cells among the eight distinct cells adjacent
   to the centre; the centre itself is never one of the cells it looks at.
   */
  lemma NborsCountsLiveNeighbours(g: Grid, r0: int, c0: int)
    requires 0 <= r0 < NumRows && 0 <= c0 < NumCols
    ensures Nbors(g, r0, c0) == |LiveNeighbourSet(g, (r0, c0))|
    ensures forall k :: 0 <= k < 8 ==> Neighbour(r0, c0, k) != (r0, c0)
  {
    CountFirstIsCard(g, r0, c0, 8);
    forall i | 0 <= i < 8
      ensures Adjacent((r0, c0), Neighbour(r0, c0, i))
    {
      NeighbourIsAdjacent(r0, c0, i);
    }
    forall q | q in LiveNeighbourSet(g, (r0, c0))
      ensures q in LiveFirst(g, r0, c0, 8)
    {
      var k := AdjacentIsNeighbour(r0, c0, q);
    }
    assert LiveFirst(g, r0, c0, 8) == LiveNeighbourSet(g, (r0, c0));
  }

  /** The centre's own state never affects its count. */
  lemma NborsIgnoresCentre(g: Grid, h: Grid, r0: int, c0: int)
    requires WellFormed(g) && WellFormed(h) && 0 <= r0 < NumRows && 0 <= c0 < NumCols
    requires forall i, j :: 0 <= i < NumRows && 0 <= j < NumCols && (i != r0 || j != c0) ==> g[i][j] == h[i][j]
    ensures Nbors(g, r0, c0) == Nbors(h, r0, c0)
  {
    NborsCountsLiveNeighbours(g, r0, c0);
    NborsCountsLiveNeighbours(h, r0, c0);
    assert LiveNeighbourSet(g, (r0, c0)) == LiveNeighbourSet(h, (r0, c0));
  }

  /**
   Toroidal wraparound: the cells countNbors looks at for the corner (0, 0)
   include the opposite corner and the far ends of its row and column.
   */
  lemma CornerWrapsAround()
    ensures Neighbour(0, 0, 0) == (NumRows - 1, NumCols - 1)
    ensures Neighbour(0, 0, 1) == (NumRows - 1, 0)
    ensures Neighbour(0, 0, 3) == (0, NumCols - 1)
    ensures Adjacent((0, 0), (NumRows - 1, NumCols - 1))
  {
    NeighbourIsAdjacent(0, 0, 0);
  }

  /** On a board with no live cell every count is zero. */
  lemma {:induction false} NborsOfAllDead(g: Grid, r0: int, c0: int, k: int)
    requires WellFormed(g) && AllDead(g) && 0 <= r0 < NumRows && 0 <= c0 < NumCols && 0 <= k <= 8
    ensures CountFirst(g, r0, c0, k) == 0
  {
    if k > 0 {
      NborsOfAllDead(g, r0, c0, k - 1);
    }
  }
}
