/**
 The page component's board state: the single authoritative board that a
 click edits in place and that a step or a reset replaces.
 */
module Store {
  import opened Board
  import opened Rules

  class GridStore {
    /** The current generation (boardState). */
    var board: array2<int>

    /** The board has the program's dimensions and every cell is Dead or Alive. */
    ghost predicate Valid()
      reads this, board
    {
      board.Length0 == NumRows && board.Length1 == NumCols && Binary(Snapshot(board))
    }

    /** The initial state, a board from createBoard. */
    constructor ()
      ensures Valid() && fresh(board)
      ensures Snapshot(board) == EmptyGrid()
    {
      var initialBoard := CreateBoard();
      board := initialBoard;
    }

    /** resetBoard: the board is replaced by a fresh empty one; the old one is left as it was. */
    method Reset()
      modifies this
      ensures Valid() && fresh(board)
      ensures Snapshot(board) == EmptyGrid()
      ensures Snapshot(old(board)) == old(Snapshot(board))
    {
      board := CreateBoard();
    }

    /**
     The canvas click on cell (x, y): the cell is rewritten in place, a 0
     becoming 1 and a 1 becoming 0; no other cell changes.
     */
    method Toggle(x: int, y: int)
      requires Valid()
      requires 0 <= x < NumRows && 0 <= y < NumCols
      modifies board
      ensures Valid() && board == old(board)
      ensures Snapshot(board) == Toggled(old(Snapshot(board)), x, y)
    {
      ghost var g := Snapshot(board);
      if board[x, y] == 0 {
        board[x, y] := 1;
      } else {
        board[x, y] := 0;
      }
      ToggleIsInvolution(g, x, y);
      assert forall i :: 0 <= i < NumRows ==> Snapshot(board)[i] == Toggled(g, x, y)[i];
    }

    /** computeNextBoardSeeds through setBoardState: the board is replaced by the next Seeds generation. */
    method NextSeeds()
      requires Valid()
      modifies this
      ensures Valid() && fresh(board)
      ensures Snapshot(board) == SeedsStep(old(Snapshot(board)))
      ensures Snapshot(old(board)) == old(Snapshot(board))
    {
      var next := StepSeeds(board);
      StepsPreserveBinary(Snapshot(board));
      board := next;
    }

    /** computeNextBoardGol through setBoardState: the board is replaced by the next Conway generation. */
    method NextGol()
      requires Valid()
      modifies this
      ensures Valid() && fresh(board)
      ensures Snapshot(board) == GolStep(old(Snapshot(board)))
      ensures Snapshot(old(board)) == old(Snapshot(board))
    {
      var next := StepGol(board);
      StepsPreserveBinary(Snapshot(board));
      board := next;
    }
  }
}
