/** The puzzle generator: a board object that owns a 9x9 working grid (the puzzle) and,
    once generated, a copy of the completed grid (the solution). */
module SudokuBoard {
  import opened Grids

  /** The contents of a 9x9 array as a grid value. */
  function Snapshot(a: array2<int>): (g: Grid)
    reads a
    requires a.Length0 == BoardSize && a.Length1 == BoardSize
    ensures forall r, c :: InBounds(r, c) ==> g[r][c] == a[r, c]
  {
    seq(BoardSize, r reads a requires 0 <= r < BoardSize =>
      seq(BoardSize, c reads a requires 0 <= c < BoardSize => a[r, c]))
  }

  class SudokuBoard {
    var board: array2<int>
    var solutionBoard: array2<int>

    predicate Valid()
      reads this
    {
      board.Length0 == BoardSize && board.Length1 == BoardSize
    }

    predicate SolutionValid()
      reads this
    {
      solutionBoard.Length0 == BoardSize && solutionBoard.Length1 == BoardSize
    }

    /** The working grid: the puzzle once generation is over. */
    function Board(): Grid
      reads this, board
      requires Valid()
    {
      Snapshot(board)
    }

    ghost function Solution(): Grid
      reads this, solutionBoard
      requires SolutionValid()
    {
      Snapshot(solutionBoard)
    }

    /** Seed, complete, keep a copy as the solution, then blank all but 30 cells. */
    constructor ()
      ensures Valid() && SolutionValid()
      ensures fresh(board) && fresh(solutionBoard) && board != solutionBoard
      ensures Solved(Solution()) ==> Clues(Board()) == MinFilledCells && Derived(Board(), Solution())
      ensures !Solved(Solution()) ==> DiagonalSeeded(Solution()) && Board() == Solution()
    {
      board := new int[BoardSize, BoardSize]((_, _) => 0);
      solutionBoard := new int[0, 0];  // not yet computed
      new;
      var completed := GenerateBoard();
      solutionBoard := CopyBoard(board);
      ghost var solution := Solution();
      assert solution == Board();
      if completed {
        assert Solved(solution);
        FullClues(Board());
        RemoveDigits();
        assert Solution() == solution;
        assert Derived(Board(), solution);
      } else {
        SeededNotSolved(solution);
      }
    }

    /** generateBoard: seed the diagonal boxes, then complete the grid from (0, 3).
        The result of the completion is returned so that the constructor can tell the cases apart. */
    method GenerateBoard() returns (completed: bool)
      requires Valid() && Empty(Board())
      modifies board
      ensures completed ==> Solved(Board())
      ensures !completed ==> DiagonalSeeded(Board())
    {
      FillDiagonal();
      DiagonalSeedingReady(Board());
      completed := FillRemaining(0, 3);
    }

    /** Fill the boxes at (0, 0), (3, 3) and (6, 6) of an empty board. */
    method FillDiagonal()
      requires Valid() && Empty(Board())
      modifies board
      ensures DiagonalSeeded(Board())
    {
      SeedStart(Board());
      var i := 0;
      while i < BoardSize
        invariant 0 <= i <= BoardSize && i % 3 == 0
        invariant SeededUpTo(Board(), i)
      {
        ghost var before := Board();
        SeedEmptyBox(before, i);
        FillBox(i, i);
        SeedStep(before, Board(), i);
        i := i + 3;
      }
      SeedDone(Board());
    }

    /** Fill an empty 3x3 box with corner (row, col) cell by cell, each cell with a digit
        the box does not hold yet (the digit a random draw would be accepted for). */
    method FillBox(row: int, col: int)
      requires Valid() && 0 <= row <= BoardSize - 3 && 0 <= col <= BoardSize - 3
      requires forall x, y :: InBlock(row, col, x, y) ==> board[x, y] == 0
      modifies board
      ensures BoxPermutation(Board(), row, col)
      ensures forall x, y :: InBounds(x, y) && !InBlock(row, col, x, y) ==> board[x, y] == old(board[x, y])
    {
      BoxFillStart(Board(), row, col);
      for i := 0 to 3
        invariant BoxFilledUpTo(Board(), row, col, 3 * i)
        invariant forall x, y :: InBounds(x, y) && !InBlock(row, col, x, y) ==> board[x, y] == old(board[x, y])
      {
        for j := 0 to 3
          invariant BoxFilledUpTo(Board(), row, col, 3 * i + j)
          invariant forall x, y :: InBounds(x, y) && !InBlock(row, col, x, y) ==> board[x, y] == old(board[x, y])
        {
          ghost var before := Board();
          BoxHasRoom(before, row, col, 3 * i + j);
          var num :| 1 <= num <= BoardSize && !BoxHas(Board(), row, col, num);
          board[row + i, col + j] := num;
          BoxFillStep(before, row, col, i, j, num);
          SameCells(Board(), Place(before, row + i, col + j, num));
        }
      }
      BoxFillDone(Board(), row, col);
    }

    /** isSafeBox: num is absent from the 3x3 block with corner (row, col). */
    method IsSafeBox(row: int, col: int, num: int) returns (safe: bool)
      requires Valid() && 0 <= row <= BoardSize - 3 && 0 <= col <= BoardSize - 3
      ensures safe <==> !BoxHas(Board(), row, col, num)
    {
      for i := 0 to 3
        invariant forall x, y :: row <= x < row + i && col <= y < col + 3 ==> board[x, y] != num
      {
        var x := row + i;
        for j := 0 to 3
          invariant forall y :: col <= y < col + j ==> board[x, y] != num
        {
          if board[x, col + j] == num {
            return false;
          }
        }
      }
      return true;
    }

    /** fillRemaining: backtracking completion from resume point (i, j). The position is
        first moved past the diagonal boxes, which hold their seeded digits; then the cell
        reached is tried with each digit in turn. */
    method FillRemaining(i: int, j: int) returns (filled: bool)
      requires Valid() && ResumePoint(i, j) && ZeroFrom(Board(), Index(i, j))
      modifies board
      decreases 81 - Index(i, j), 1
      ensures !filled ==> Board() == old(Board())
      ensures FixedBefore(old(Board()), Board(), Index(i, j))
      ensures filled ==> FilledFrom(Board(), Index(i, j))
      ensures filled && old(FilledBefore(Board(), Index(i, j)) && Consistent(Board())) ==> Solved(Board())
    {
      match Normalize(i, j)
      case Finished =>
        assert DiagonalBetween(Index(i, j), 81);
        FinishedSolved(Board(), Index(i, j));
        return true;
      case At(r, c) =>
        ghost var g := Board();
        assert DiagonalBetween(Index(i, j), Index(r, c));
        SkipSeeded(g, g, Index(i, j), Index(r, c));
        filled := FillCell(r, c);
        SkipSeeded(g, Board(), Index(i, j), Index(r, c));
    }

    /** The trial loop of fillRemaining at the cell (r, c): each digit that is safe there is
        placed and the rest of the grid searched; a failed search resets the cell to 0. */
    method FillCell(r: int, c: int) returns (filled: bool)
      requires Valid() && InBounds(r, c) && !InDiagonalBox(r, c) && ZeroFrom(Board(), Index(r, c))
      modifies board
      decreases 81 - Index(r, c), 0
      ensures !filled ==> Board() == old(Board())
      ensures FixedBefore(old(Board()), Board(), Index(r, c))
      ensures filled ==> FilledFrom(Board(), Index(r, c))
      ensures filled && old(FilledBefore(Board(), Index(r, c)) && Consistent(Board())) ==> Solved(Board())
    {
      ghost var g := Board();
      for num := 1 to BoardSize + 1
        invariant Board() == g
      {
        var safe := IsSafe(r, c, num);
        if safe {
          board[r, c] := num;
          SameCells(Board(), Place(g, r, c, num));
          PlaceNext(g, Index(r, c), r, c, num);
          filled := FillRemaining(r, c + 1);
          if filled {
            SuccessLifts(g, Board(), Index(r, c), r, c, num);
            return;
          }
          board[r, c] := 0;
          SameCells(Board(), g);
        }
      }
      return false;
    }

    /** isSafe: num is absent from row i, column j and the box containing (i, j). */
    method IsSafe(i: int, j: int, num: int) returns (safe: bool)
      requires Valid() && InBounds(i, j)
      ensures safe <==> IsSafeAt(Board(), i, j, num)
    {
      var inRow := UsedInRow(i, num);
      if inRow {
        return false;
      }
      var inCol := UsedInCol(j, num);
      if inCol {
        return false;
      }
      var inBox := UsedInBox(i - i % 3, j - j % 3, num);
      return !inBox;
    }

    /** usedInRow: some cell of row i holds num. */
    method UsedInRow(i: int, num: int) returns (used: bool)
      requires Valid() && 0 <= i < BoardSize
      ensures used <==> RowHas(Board(), i, num)
    {
      for j := 0 to BoardSize
        invariant forall c :: 0 <= c < j ==> board[i, c] != num
      {
        if board[i, j] == num {
          return true;
        }
      }
      return false;
    }

    /** usedInCol: some cell of column j holds num. */
    method UsedInCol(j: int, num: int) returns (used: bool)
      requires Valid() && 0 <= j < BoardSize
      ensures used <==> ColHas(Board(), j, num)
    {
      for i := 0 to BoardSize
        invariant forall r :: 0 <= r < i ==> board[r, j] != num
      {
        if board[i, j] == num {
          return true;
        }
      }
      return false;
    }

    /** usedInBox: some cell of the 3x3 block with corner (rowStart, colStart) holds num. */
    method UsedInBox(rowStart: int, colStart: int, num: int) returns (used: bool)
      requires Valid() && 0 <= rowStart <= BoardSize - 3 && 0 <= colStart <= BoardSize - 3
      ensures used <==> BoxHas(Board(), rowStart, colStart, num)
    {
      for i := 0 to 3
        invariant forall x, y :: rowStart <= x < rowStart + i && colStart <= y < colStart + 3 ==> board[x, y] != num
      {
        var x := rowStart + i;
        for j := 0 to 3
          invariant forall y :: colStart <= y < colStart + j ==> board[x, y] != num
        {
          if board[x, colStart + j] == num {
            return true;
          }
        }
      }
      return false;
    }

    /** removeDigits: blank 81 - 30 = 51 of the non-empty cells, one at a time. */
    method RemoveDigits()
      requires Valid() && Clues(Board()) >= BoardSize * BoardSize - MinFilledCells
      modifies board
      ensures Clues(Board()) == old(Clues(Board())) - (BoardSize * BoardSize - MinFilledCells)
      ensures Derived(Board(), old(Board()))
    {
      var totalCells := BoardSize * BoardSize;
      var cellsToRemove := totalCells - MinFilledCells;
      while cellsToRemove > 0
        invariant 0 <= cellsToRemove <= totalCells - MinFilledCells
        invariant Clues(Board()) == old(Clues(Board())) - (totalCells - MinFilledCells - cellsToRemove)
        invariant Derived(Board(), old(Board()))
        decreases cellsToRemove
      {
        SomeClue(Board());
        // the random position that passes the non-zero test
        var i, j :| 0 <= i < BoardSize && 0 <= j < BoardSize && board[i, j] != 0;
        ghost var before := Board();
        board[i, j] := 0;
        ClearClue(before, i, j);
        SameCells(Board(), Place(before, i, j, 0));
        cellsToRemove := cellsToRemove - 1;
      }
    }

    /** copyBoard: a fresh array holding the same cells, row by row. */
    method CopyBoard(original: array2<int>) returns (copy: array2<int>)
      requires original.Length0 == BoardSize && original.Length1 == BoardSize
      ensures fresh(copy) && copy.Length0 == BoardSize && copy.Length1 == BoardSize
      ensures Snapshot(copy) == Snapshot(original)
    {
      copy := new int[BoardSize, BoardSize];
      for i := 0 to BoardSize
        invariant forall r, c :: 0 <= r < i && 0 <= c < BoardSize ==> copy[r, c] == original[r, c]
      {
        for j := 0 to BoardSize
          invariant forall r, c :: 0 <= r < i && 0 <= c < BoardSize ==> copy[r, c] == original[r, c]
          invariant forall c :: 0 <= c < j ==> copy[i, c] == original[i, c]
        {
          copy[i, j] := original[i, j];
        }
      }
      SameCells(Snapshot(copy), Snapshot(original));
    }

    /** getBoard: the puzzle array itself, not a copy. */
    method GetBoard() returns (b: array2<int>)
      ensures b == board
    {
      return board;
    }

    /** getSolutionBoard: the solution array itself, not a copy. */
    method GetSolutionBoard() returns (s: array2<int>)
      ensures s == solutionBoard
    {
      return solutionBoard;
    }
  }
}
