/** The constraint checker: may digit num go into cell (row, col)? */
module Constraint {
  import opened Grid

  /** Reference definition: num occurs in no cell of row `row`, no cell of
      column `col` and no cell of the 3x3 box holding (row, col). The target
      cell itself is part of all three scans. */
  predicate Allowed(b: seq<seq<int>>, row: int, col: int, num: int)
    requires IsBoard(b) && InRange(row, col)
  {
    && (forall c :: 0 <= c < Size ==> b[row][c] != num)
    && (forall r :: 0 <= r < Size ==> b[r][col] != num)
    && (forall r, c :: 0 <= r < Size && 0 <= c < Size && SameBox(row, col, r, c) ==> b[r][c] != num)
  }

  /** A cell lies in the box of (row, col) exactly when it is within three
      rows and three columns of the box's corner. */
  lemma BoxCorner(row: int, col: int, r: int, c: int)
    requires InRange(row, col) && InRange(r, c)
    ensures SameBox(row, col, r, c) <==>
      BoxStart(row) <= r < BoxStart(row) + BoxSize && BoxStart(col) <= c < BoxStart(col) + BoxSize
  {
  }

  /** The checker as app/page.js writes it: one pass over the row and the
      column together, then a nested pass over the box from its corner,
      returning false at the first cell that already holds num. */
  method IsValid(b: seq<seq<int>>, row: int, col: int, num: int) returns (ok: bool)
    requires IsBoard(b) && InRange(row, col)
    ensures ok <==> Allowed(b, row, col, num)
  {
    var i := 0;
    while i < Size
      invariant 0 <= i <= Size
      invariant forall k :: 0 <= k < i ==> b[row][k] != num && b[k][col] != num
    {
      if b[row][i] == num || b[i][col] == num {
        return false;
      }
      i := i + 1;
    }
    var startRow := BoxStart(row);
    var startCol := BoxStart(col);
    i := 0;
    while i < BoxSize
      invariant 0 <= i <= BoxSize
      invariant forall r, c :: startRow <= r < startRow + i && startCol <= c < startCol + BoxSize ==> b[r][c] != num
    {
      var boxRow := startRow + i;
      var j := 0;
      while j < BoxSize
        invariant 0 <= j <= BoxSize
        invariant forall r, c :: startRow <= r < startRow + i && startCol <= c < startCol + BoxSize ==> b[r][c] != num
        invariant forall c :: startCol <= c < startCol + j ==> b[boxRow][c] != num
      {
        if b[startRow + i][startCol + j] == num {
          assert SameBox(row, col, startRow + i, startCol + j) by {
            BoxCorner(row, col, startRow + i, startCol + j);
          }
          return false;
        }
        j := j + 1;
      }
      i := i + 1;
    }
    forall r, c | 0 <= r < Size && 0 <= c < Size && SameBox(row, col, r, c)
      ensures b[r][c] != num
    {
      BoxCorner(row, col, r, c);
    }
    return true;
  }

  /** Characterisation in terms of peers: num is allowed at (row, col)
      exactly when no peer holds it and the cell itself does not hold it
      either (the scans do not skip the target cell). */
  lemma AllowedIffNoPeerHolds(b: seq<seq<int>>, row: int, col: int, num: int)
    requires IsBoard(b) && InRange(row, col)
    ensures Allowed(b, row, col, num) <==>
      b[row][col] != num &&
      forall r, c :: InRange(r, c) && Peers(row, col, r, c) ==> b[r][c] != num
  {
    if Allowed(b, row, col, num) {
      forall r, c | InRange(r, c) && Peers(row, col, r, c)
        ensures b[r][c] != num
      {
        if r == row {
          assert b[row][c] != num;
        } else if c == col {
          assert b[r][col] != num;
        }
      }
    }
    if b[row][col] != num && forall r, c :: InRange(r, c) && Peers(row, col, r, c) ==> b[r][c] != num {
      forall k | 0 <= k < Size
        ensures b[row][k] != num && b[k][col] != num
      {
        if k != col {
          assert Peers(row, col, row, k);
        }
        if k != row {
          assert Peers(row, col, k, col);
        }
      }
      forall r, c | 0 <= r < Size && 0 <= c < Size && SameBox(row, col, r, c)
        ensures b[r][c] != num
      {
        if r != row || c != col {
          assert Peers(row, col, r, c);
        }
      }
    }
  }

  /** Accepted placements preserve the Sudoku invariant: writing an allowed
      digit into an empty cell of a conflict-free board leaves it
      conflict-free. */
  lemma PlacementKeepsNoConflicts(b: seq<seq<int>>, row: int, col: int, num: int)
    requires IsBoard(b) && InRange(row, col) && IsDigit(num)
    requires NoConflicts(b) && Allowed(b, row, col, num)
    ensures NoConflicts(Place(b, row, col, num))
  {
    var b' := Place(b, row, col, num);
    AllowedIffNoPeerHolds(b, row, col, num);
    forall r1, c1, r2, c2 |
      InRange(r1, c1) && InRange(r2, c2) && Peers(r1, c1, r2, c2) && b'[r1][c1] != 0
      ensures b'[r1][c1] != b'[r2][c2]
    {
      if r1 == row && c1 == col {
      } else if r2 == row && c2 == col {
        assert Peers(row, col, r1, c1);
      } else {
        assert b'[r1][c1] == b[r1][c1] && b'[r2][c2] == b[r2][c2];
      }
    }
  }
}
