/** The page's game state (board, mistake counter, game-over flag) and the
    three transitions the user can trigger: typing into a cell, pressing
    "Solve" and pressing "Restart". Each transition is one atomic step from
    a state value to the next. */
module Game {
  import opened Grid
  import opened Constraint
  import opened Solver

  /** Mistakes after which the game is over. */
  const MaxMistakes := 3

  datatype State = State(board: seq<seq<int>>, mistakes: nat, gameOver: bool)

  /** What the text box yields after integer parsing: a number, or nothing
      usable (an empty or non-numeric entry). */
  datatype Entry = NotANumber | Number(n: int)

  /** The demo puzzle the page starts from and restarts to. */
  const InitialBoard: seq<seq<int>> := [
    [5, 3, 0, 0, 7, 0, 0, 0, 0],
    [6, 0, 0, 1, 9, 5, 0, 0, 0],
    [0, 9, 8, 0, 0, 0, 0, 6, 0],
    [8, 0, 0, 0, 6, 0, 0, 0, 3],
    [4, 0, 0, 8, 0, 3, 0, 0, 1],
    [7, 0, 0, 0, 2, 0, 0, 0, 6],
    [0, 6, 0, 0, 0, 0, 2, 8, 0],
    [0, 0, 0, 4, 1, 9, 0, 0, 5],
    [0, 0, 0, 0, 8, 0, 0, 7, 9]
  ]

  /** The state every session starts in and every restart returns to. */
  function Start(puzzle: seq<seq<int>>): (g: State) {
    State(puzzle, 0, false)
  }

  /** The invariant Start(puzzle) establishes and every transition preserves:
      the board keeps the puzzle's givens and only adds digits, the board
      stays conflict-free when the puzzle was, and the game is over exactly
      when three mistakes have been made, never more. */
  ghost predicate GameInvariant(puzzle: seq<seq<int>>, g: State)
    requires IsBoard(puzzle)
  {
    && IsBoard(g.board)
    && Extends(puzzle, g.board)
    && (NoConflicts(puzzle) ==> NoConflicts(g.board))
    && g.mistakes <= MaxMistakes
    && (g.gameOver <==> g.mistakes == MaxMistakes)
  }

  /** Typing `entry` into cell (row, col). Ignored when the game is over, the
      cell is not empty, or the entry is not a digit 1..9; an allowed digit is
      written into the cell, a rejected one counts as a mistake and ends the
      game on the third. The check is Allowed, which Constraint.IsValid is
      proved to compute. */
  function HandleInput(g: State, row: int, col: int, entry: Entry): (g': State)
    requires IsBoard(g.board) && InRange(row, col)
    ensures IsBoard(g'.board)
    ensures g.gameOver || g.board[row][col] != 0 || !entry.Number? || !IsDigit(entry.n) ==> g' == g
    ensures !g.gameOver && g.board[row][col] == 0 && entry.Number? && IsDigit(entry.n) ==>
      && (Allowed(g.board, row, col, entry.n) ==> g'.board[row][col] == entry.n)
      && (!Allowed(g.board, row, col, entry.n) ==> g'.mistakes == g.mistakes + 1)
    ensures g'.board != g.board ==>
      && g.board[row][col] == 0 && entry.Number? && g'.board[row][col] == entry.n
      && Allowed(g.board, row, col, entry.n)
      && (forall r, c :: InRange(r, c) && (r != row || c != col) ==> g'.board[r][c] == g.board[r][c])
      && g'.mistakes == g.mistakes && g'.gameOver == g.gameOver
    ensures g'.mistakes != g.mistakes ==>
      && entry.Number? && IsDigit(entry.n) && !Allowed(g.board, row, col, entry.n)
      && g'.board == g.board && g'.mistakes == g.mistakes + 1
      && (g'.gameOver <==> g'.mistakes >= MaxMistakes)
  {
    if g.gameOver || g.board[row][col] != 0 then g
    else match entry
      case NotANumber => g
      case Number(n) =>
        if !IsDigit(n) then g
        else if Allowed(g.board, row, col, n) then g.(board := Place(g.board, row, col, n))
        else
          var mistakes := g.mistakes + 1;
          g.(mistakes := mistakes, gameOver := g.gameOver || mistakes >= MaxMistakes)
  }

  /** An entry that is a digit, on a live game and an empty cell, has an
      effect: it is written when allowed, counted as a mistake when not.
      A corollary of HandleInput's contract, stated for a concrete digit. */
  lemma InputTakesEffect(g: State, row: int, col: int, n: int)
    requires IsBoard(g.board) && InRange(row, col)
    requires !g.gameOver && g.board[row][col] == 0 && IsDigit(n)
    ensures Allowed(g.board, row, col, n) ==> HandleInput(g, row, col, Number(n)).board[row][col] == n
    ensures !Allowed(g.board, row, col, n) ==> HandleInput(g, row, col, Number(n)).mistakes == g.mistakes + 1
  {
  }

  /** Pressing "Solve": the solver runs on a copy of the board; its result
      replaces the board only when it succeeds. Mistakes and the game-over
      flag are untouched. */
  method HandleSolve(g: State) returns (g': State)
    requires IsBoard(g.board)
    ensures IsBoard(g'.board) && Extends(g.board, g'.board)
    ensures g'.mistakes == g.mistakes && g'.gameOver == g.gameOver
    ensures g'.board == g.board || Full(g'.board)
    ensures NoConflicts(g.board) ==>
      (g'.board == g.board || SolutionOf(g'.board, g.board)) &&
      (Full(g'.board) <==> exists s :: SolutionOf(s, g.board))
  {
    var solved, board := Solve(g.board);
    if solved {
      return g.(board := board);
    }
    return g;
  }

  /** Pressing "Restart": back to the puzzle with no mistakes, whatever the
      state was. */
  function Restart(g: State, puzzle: seq<seq<int>>): (g': State)
    requires IsBoard(puzzle)
    ensures GameInvariant(puzzle, g')
    ensures g'.board == puzzle && g'.mistakes == 0 && !g'.gameOver
  {
    Start(puzzle)
  }

  /** Restarting forgets all history: any two states restart to the same
      state. A corollary of Restart's own contract, which holds whatever the
      prior state. */
  lemma RestartForgetsHistory(g1: State, g2: State, puzzle: seq<seq<int>>)
    requires IsBoard(puzzle)
    ensures Restart(g1, puzzle) == Restart(g2, puzzle)
  {
  }

  /** Typing preserves the game invariant. */
  lemma HandleInputKeepsInvariant(puzzle: seq<seq<int>>, g: State, row: int, col: int, entry: Entry)
    requires IsBoard(puzzle) && GameInvariant(puzzle, g) && InRange(row, col)
    ensures GameInvariant(puzzle, HandleInput(g, row, col, entry))
  {
    var g' := HandleInput(g, row, col, entry);
    if g'.board != g.board {
      ExtendsTransitive(puzzle, g.board, g'.board);
      if NoConflicts(puzzle) {
        PlacementKeepsNoConflicts(g.board, row, col, entry.n);
      }
    }
  }

  /** Pressing "Solve" preserves the game invariant. */
  method HandleSolveKeepsInvariant(puzzle: seq<seq<int>>, g: State) returns (g': State)
    requires IsBoard(puzzle) && GameInvariant(puzzle, g)
    ensures GameInvariant(puzzle, g')
    ensures g'.board == g.board || Full(g'.board)
  {
    g' := HandleSolve(g);
    ExtendsTransitive(puzzle, g.board, g'.board);
  }

  /** Three rejected digits end a fresh game, after which every entry is
      ignored until a restart. */
  lemma ThreeMistakesEndGame(g: State, row: int, col: int, n: int, entry: Entry, r: int, c: int)
    requires IsBoard(g.board) && InRange(row, col) && InRange(r, c)
    requires g.mistakes == 0 && !g.gameOver
    requires g.board[row][col] == 0 && IsDigit(n) && !Allowed(g.board, row, col, n)
    ensures var g3 := HandleInput(HandleInput(HandleInput(g, row, col, Number(n)), row, col, Number(n)), row, col, Number(n));
      && g3.gameOver && g3.mistakes == MaxMistakes && g3.board == g.board
      && HandleInput(g3, r, c, entry) == g3
  {
  }

  /** The demo puzzle is a well-formed board, and typing 5 next to the 5 in
      its first row is rejected and counted as a mistake. */
  lemma DemoDuplicateRejected()
    ensures IsBoard(InitialBoard)
    ensures !Allowed(InitialBoard, 0, 2, 5)
    ensures HandleInput(Start(InitialBoard), 0, 2, Number(5)) == State(InitialBoard, 1, false)
  {
    assert InitialBoard[0][0] == 5;
  }
}
