/** The depth-first backtracking solver of app/page.js. That code mutates
    one shared grid and undoes each failed placement; here the grid is a
    value threaded through the recursion, and the undo is the same explicit
    write of 0. */
module Solver {
  import opened Grid
  import opened Constraint

  datatype Cell = NoEmptyCell | EmptyAt(row: int, col: int)

  /** Cell (r, c) comes before (row, col) in row-major order. */
  predicate Before(r: int, c: int, row: int, col: int) {
    r < row || (r == row && c < col)
  }

  /** Scans the board in row-major order for the first cell holding 0. */
  method FirstEmpty(b: seq<seq<int>>) returns (cell: Cell)
    requires IsBoard(b)
    ensures cell.NoEmptyCell? <==> Full(b)
    ensures cell.EmptyAt? ==> InRange(cell.row, cell.col) && b[cell.row][cell.col] == 0
    ensures cell.EmptyAt? ==>
      forall r, c :: InRange(r, c) && Before(r, c, cell.row, cell.col) ==> b[r][c] != 0
  {
    var row := 0;
    while row < Size
      invariant 0 <= row <= Size
      invariant forall r, c :: 0 <= r < row && 0 <= c < Size ==> b[r][c] != 0
    {
      var col := 0;
      while col < Size
        invariant 0 <= col <= Size
        invariant forall r, c :: 0 <= r < row && 0 <= c < Size ==> b[r][c] != 0
        invariant forall c :: 0 <= c < col ==> b[row][c] != 0
      {
        if b[row][col] == 0 {
          return EmptyAt(row, col);
        }
        col := col + 1;
      }
      row := row + 1;
    }
    return NoEmptyCell;
  }

  /** Solves b by backtracking. On success the result is full and every digit
      it wrote agrees with all its peers; on failure the board comes back
      exactly as given and no solution of b exists. Only empty cells are
      ever written, and only with digits 1..9. */
  method Solve(b: seq<seq<int>>) returns (solved: bool, result: seq<seq<int>>)
    requires IsBoard(b)
    ensures IsBoard(result)
    ensures Extends(b, result)
    ensures !solved ==> result == b
    ensures solved ==> Full(result)
    ensures solved ==> NewDigitsConsistent(b, result)
    ensures Full(b) ==> solved && result == b
    ensures !solved ==> forall s :: !SolutionOf(s, b)
    ensures solved && NoConflicts(b) ==> SolutionOf(result, b)
    decreases |EmptyCells(b)|
  {
    var cell := FirstEmpty(b);
    if cell.NoEmptyCell? {
      assert NewDigitsConsistent(b, b);
      return true, b;
    }
    var row, col := cell.row, cell.col;
    var board := b;
    var num := 1;
    while num <= 9
      invariant 1 <= num <= 10
      invariant board == b
      invariant forall s :: SolutionOf(s, b) ==> s[row][col] >= num
    {
      var valid := IsValid(board, row, col, num);
      if valid {
        board := Place(board, row, col, num);
        PlaceShrinksEmpty(b, row, col, num);
        var rest, next := Solve(board);
        if rest {
          PlacementConsistent(b, row, col, num, next);
          ExtendsTransitive(b, board, next);
          if NoConflicts(b) {
            NoConflictsFromPlaced(b, next);
          }
          return true, next;
        }
        NoSolutionWithDigit(b, row, col, num);
        board := Place(next, row, col, 0);
        PlaceUndo(b, row, col, num);
      } else {
        DisallowedDigitUnused(b, row, col, num);
      }
      num := num + 1;
    }
    return false, board;
  }

  /** If the first placement was allowed and the rest of the search wrote
      only digits consistent with their peers, every new digit of the final
      board is consistent. */
  lemma PlacementConsistent(b: seq<seq<int>>, row: int, col: int, num: int, next: seq<seq<int>>)
    requires IsBoard(b) && InRange(row, col) && b[row][col] == 0 && IsDigit(num)
    requires Allowed(b, row, col, num)
    requires IsBoard(next)
    requires Extends(Place(b, row, col, num), next)
    requires NewDigitsConsistent(Place(b, row, col, num), next)
    ensures NewDigitsConsistent(b, next)
  {
    var b1 := Place(b, row, col, num);
    AllowedIffNoPeerHolds(b, row, col, num);
    forall r1, c1, r2, c2 |
      InRange(r1, c1) && InRange(r2, c2) && Peers(r1, c1, r2, c2) && b[r1][c1] == 0 && next[r1][c1] != 0
      ensures next[r1][c1] != next[r2][c2]
    {
      if r1 != row || c1 != col {
        assert b1[r1][c1] == 0;
      } else {
        assert next[row][col] == num;
        if b[r2][c2] != 0 {
          assert b1[r2][c2] == b[r2][c2];
        } else if next[r2][c2] != 0 {
          assert b1[r2][c2] == 0;
          assert Peers(r2, c2, row, col);
        }
      }
    }
  }

  /** A digit the checker rejects cannot appear at (row, col) in a solution. */
  lemma DisallowedDigitUnused(b: seq<seq<int>>, row: int, col: int, num: int)
    requires IsBoard(b) && InRange(row, col) && b[row][col] == 0 && IsDigit(num)
    requires !Allowed(b, row, col, num)
    ensures forall s :: SolutionOf(s, b) ==> s[row][col] != num
  {
    AllowedIffNoPeerHolds(b, row, col, num);
    var r, c :| InRange(r, c) && Peers(row, col, r, c) && b[r][c] == num;
    forall s | SolutionOf(s, b)
      ensures s[row][col] != num
    {
      assert s[r][c] == num;
    }
  }

  /** A solution of b with num at (row, col) is a solution of b with num
      placed there; so if the latter has none, neither does such an s exist. */
  lemma NoSolutionWithDigit(b: seq<seq<int>>, row: int, col: int, num: int)
    requires IsBoard(b) && InRange(row, col) && b[row][col] == 0 && IsDigit(num)
    requires forall s :: !SolutionOf(s, Place(b, row, col, num))
    ensures forall s :: SolutionOf(s, b) ==> s[row][col] != num
  {
    forall s | SolutionOf(s, b) && s[row][col] == num
      ensures false
    {
      assert SolutionOf(s, Place(b, row, col, num));
    }
  }

  /** On a puzzle whose givens are consistent the solver is a decision
      procedure: it succeeds exactly when a solution exists. */
  method SolveDecides(b: seq<seq<int>>) returns (solved: bool, result: seq<seq<int>>)
    requires IsBoard(b) && NoConflicts(b)
    ensures solved <==> exists s :: SolutionOf(s, b)
    ensures solved ==> SolutionOf(result, b)
    ensures !solved ==> result == b
  {
    solved, result := Solve(b);
  }

  /** Solving the output of a successful solve again succeeds and changes
      nothing. */
  method SolveTwice(b: seq<seq<int>>) returns (first: bool, once: seq<seq<int>>, second: bool, twice: seq<seq<int>>)
    requires IsBoard(b)
    ensures first ==> second && twice == once
    ensures !first ==> once == b
  {
    first, once := Solve(b);
    second, twice := Solve(once);
  }
}
