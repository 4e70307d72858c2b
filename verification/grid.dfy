/** The 9x9 Sudoku board as a value: rows of cells, 0 meaning empty and
    1..9 a placed digit, together with the vocabulary the rest of the model
    uses to talk about boards (peers, uniqueness, empty cells). */
module Grid {

  /** Side of the board and of one box. */
  const Size := 9
  const BoxSize := 3

  /** A well-formed board: 9 rows of 9 cells, each cell in 0..9. */
  predicate IsBoard(b: seq<seq<int>>) {
    && |b| == Size
    && (forall r :: 0 <= r < Size ==> |b[r]| == Size)
    && (forall r, c :: 0 <= r < Size && 0 <= c < Size ==> 0 <= b[r][c] <= 9)
  }

  predicate InRange(row: int, col: int) {
    0 <= row < Size && 0 <= col < Size
  }

  predicate IsDigit(n: int) {
    1 <= n <= 9
  }

  /** Top-left coordinate of the box holding row (or column) x:
      floor(x / 3) * 3, with Dafny's division agreeing with floor for x >= 0. */
  function BoxStart(x: int): (s: int)
    requires 0 <= x < Size
    ensures 0 <= s <= x < s + BoxSize
    ensures s % BoxSize == 0
  {
    x / BoxSize * BoxSize
  }

  /** Two cells lie in the same 3x3 box. */
  predicate SameBox(r1: int, c1: int, r2: int, c2: int) {
    r1 / BoxSize == r2 / BoxSize && c1 / BoxSize == c2 / BoxSize
  }

  /** Two distinct cells that share a row, a column or a box. */
  predicate Peers(r1: int, c1: int, r2: int, c2: int) {
    && (r1 != r2 || c1 != c2)
    && (r1 == r2 || c1 == c2 || SameBox(r1, c1, r2, c2))
  }

  /** The Sudoku invariant: no two peers hold the same non-zero digit. */
  ghost predicate NoConflicts(b: seq<seq<int>>)
    requires IsBoard(b)
  {
    forall r1, c1, r2, c2 ::
      InRange(r1, c1) && InRange(r2, c2) && Peers(r1, c1, r2, c2) && b[r1][c1] != 0
      ==> b[r1][c1] != b[r2][c2]
  }

  /** No cell is empty. */
  ghost predicate Full(b: seq<seq<int>>)
    requires IsBoard(b)
  {
    forall r, c :: InRange(r, c) ==> b[r][c] != 0
  }

  /** b2 differs from b1 only in cells that were empty in b1, and only by
      writing a digit 1..9 there: givens are never altered. */
  ghost predicate Extends(b1: seq<seq<int>>, b2: seq<seq<int>>)
    requires IsBoard(b1) && IsBoard(b2)
  {
    forall r, c :: InRange(r, c) && b2[r][c] != b1[r][c] ==> b1[r][c] == 0 && IsDigit(b2[r][c])
  }

  /** Every digit b' holds in a cell that was empty in b differs from the
      digits of all its peers in b'. */
  ghost predicate NewDigitsConsistent(b: seq<seq<int>>, b': seq<seq<int>>)
    requires IsBoard(b) && IsBoard(b')
  {
    forall r1, c1, r2, c2 ::
      InRange(r1, c1) && InRange(r2, c2) && Peers(r1, c1, r2, c2) && b[r1][c1] == 0 && b'[r1][c1] != 0
      ==> b'[r1][c1] != b'[r2][c2]
  }

  /** A solution of puzzle b: a full, conflict-free board of digits that keeps
      every non-zero cell of b. */
  ghost predicate SolutionOf(s: seq<seq<int>>, b: seq<seq<int>>)
    requires IsBoard(b)
  {
    && IsBoard(s)
    && Full(s)
    && NoConflicts(s)
    && Extends(b, s)
  }

  /** Writes v into cell (row, col) of b. */
  function Place(b: seq<seq<int>>, row: int, col: int, v: int): (b': seq<seq<int>>)
    requires IsBoard(b) && InRange(row, col) && 0 <= v <= 9
    ensures IsBoard(b')
    ensures b'[row][col] == v
    ensures forall r, c :: InRange(r, c) && (r != row || c != col) ==> b'[r][c] == b[r][c]
  {
    b[row := b[row][col := v]]
  }

  /** Resetting a cell that was empty undoes a placement. */
  lemma PlaceUndo(b: seq<seq<int>>, row: int, col: int, v: int)
    requires IsBoard(b) && InRange(row, col) && b[row][col] == 0 && 0 <= v <= 9
    ensures Place(Place(b, row, col, v), row, col, 0) == b
  {
    assert b[row][col := v][col := 0] == b[row];
  }

  /** The set of empty cells; its size is the solver's termination measure. */
  ghost function EmptyCells(b: seq<seq<int>>): set<(int, int)>
    requires IsBoard(b)
  {
    set r, c | 0 <= r < Size && 0 <= c < Size && b[r][c] == 0 :: (r, c)
  }

  /** Filling an empty cell removes exactly that cell from the empty set, so
      the number of empty cells falls by one. */
  lemma PlaceShrinksEmpty(b: seq<seq<int>>, row: int, col: int, v: int)
    requires IsBoard(b) && InRange(row, col) && b[row][col] == 0 && IsDigit(v)
    ensures EmptyCells(Place(b, row, col, v)) == EmptyCells(b) - {(row, col)}
    ensures |EmptyCells(Place(b, row, col, v))| == |EmptyCells(b)| - 1
  {
    var b' := Place(b, row, col, v);
    assert (row, col) in EmptyCells(b);
    assert EmptyCells(b') == EmptyCells(b) - {(row, col)};
  }

  /** Extends is transitive: two rounds of filling empty cells are one. */
  lemma ExtendsTransitive(b1: seq<seq<int>>, b2: seq<seq<int>>, b3: seq<seq<int>>)
    requires IsBoard(b1) && IsBoard(b2) && IsBoard(b3)
    requires Extends(b1, b2) && Extends(b2, b3)
    ensures Extends(b1, b3)
  {
  }

  /** A board that was conflict-free stays so when the only new digits are
      ones whose cells had no conflicting peer when written. */
  lemma NoConflictsFromPlaced(b: seq<seq<int>>, b': seq<seq<int>>)
    requires IsBoard(b) && IsBoard(b') && Extends(b, b')
    requires NoConflicts(b) && NewDigitsConsistent(b, b')
    ensures NoConflicts(b')
  {
    forall r1, c1, r2, c2 |
      InRange(r1, c1) && InRange(r2, c2) && Peers(r1, c1, r2, c2) && b'[r1][c1] != 0
      ensures b'[r1][c1] != b'[r2][c2]
    {
      if b[r1][c1] == 0 {
      } else if b[r2][c2] == 0 {
        assert Peers(r2, c2, r1, c1);
      } else {
        assert b'[r1][c1] == b[r1][c1] && b'[r2][c2] == b[r2][c2];
      }
    }
  }
}
