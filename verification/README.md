# Sudoku page: constraint checker, backtracking solver, game state

A Dafny model of the logic inside the Sudoku page `app/page.js`:

- **`isValid`** decides whether a digit may go into a cell. The digit must not already be in the cell's row, its column or its 3×3 box.
- **`solveSudoku`** is a depth-first backtracking solver. It finds the first empty cell in row-major order and tries the digits 1..9 in ascending order. It recurses after each accepted placement and resets the cell to 0 when the recursion fails.
- **The page's game state** holds the board, a mistake counter and a game-over flag. It changes through three transitions: typing into a cell, "Solve" and "Restart".

A board is a value of type `seq<seq<int>>`: 9 rows of 9 cells, where 0 means empty. The source mutates one shared grid across its recursive calls. The model threads one board value through the recursion instead, and undoes a failed placement with the same explicit write of 0. Deep copies made with `JSON.parse(JSON.stringify(...))` therefore become plain value passing.

Modules:
- `Grid` (grid.dfy): board shape, peers, the uniqueness invariant, what "extends" and "solution" mean, and the set of empty cells.
- `Constraint` (constraint.dfy): `isValid`, both as the source's loops and as a reference predicate.
- `Solver` (solver.dfy): the row-major scan and the backtracking search.
- `Game` (game.dfy): the state record and its transitions.

Beyond the source's own promises, the solver is also proved complete. When it returns false, no solution extends the board. So on a board whose givens are consistent, it succeeds exactly when a solution exists.

Two choices follow the code and may be unexpected:
- `isValid` does not skip the target cell. Its row and column scans read `(row, col)` itself. `Constraint.AllowedIffNoPeerHolds` states the check as "no peer holds the digit, and neither does the cell itself".
- `isValid` puts no range condition on `num`, so the model does not require one either.

## Model

| member | source | states |
|---|---|---|
| Constraint.IsValid | app/page.js:5-18 | The result is true exactly when `num` is in no cell of row `row`, no cell of column `col` and no cell of the 3×3 box cornered at `(row/3*3, col/3*3)`. The target cell is included in all three scans. |
| Constraint.AllowedIffNoPeerHolds | app/page.js:5-18 | The check holds exactly when no peer of `(row, col)` holds `num` and the cell itself does not hold it. A peer is a distinct cell sharing the row, the column or the box. |
| Constraint.PlacementKeepsNoConflicts | app/page.js:70-73 | Writing an accepted digit into a conflict-free board leaves row, column and box uniqueness intact. |
| Solver.FirstEmpty | app/page.js:21-23 | It finds no cell exactly when the board is full. Otherwise it returns an empty cell, and every cell before it in row-major order is filled. |
| Solver.Solve | app/page.js:20-36 | Only cells that were 0 are written, always with digits 1..9, so givens never change. On failure the board equals its input and no solution exists. On success no cell is 0 and every written digit differs from all its peers, so a conflict-free input yields a solution. A board with no empty cell comes back unchanged, with success. |
| Solver.PlacementConsistent | app/page.js:25-27 | A digit accepted by the check, followed by a consistent completion of the rest, gives a completion that is consistent in every newly written cell. |
| Solver.DisallowedDigitUnused | app/page.js:24-25 | A digit the check rejects at an empty cell appears there in no solution, so skipping it loses nothing. |
| Solver.NoSolutionWithDigit | app/page.js:26-28 | If the recursive call after placing `num` fails, no solution has `num` at that cell, so undoing it and trying the next digit loses nothing. |
| Solver.SolveDecides | app/page.js:20-36 | When the givens are conflict-free, the solver succeeds exactly when a solution exists, and what it returns is a solution. |
| Solver.SolveTwice | app/page.js:21-35 | Solving the output of a successful solve again succeeds and returns the same board. |
| Grid.PlaceShrinksEmpty | app/page.js:23-27 | Filling an empty cell removes exactly that cell from the set of empty cells. That set is the measure by which the recursion terminates. |
| Grid.PlaceUndo | app/page.js:26-28 | Writing a digit into an empty cell and then resetting it to 0 restores the board exactly. |
| Grid.NoConflictsFromPlaced | app/page.js:25-27 | A conflict-free board extended only by digits that differ from their peers stays conflict-free. |
| Game.HandleInput | app/page.js:64-84 | The state is unchanged when the game is over, the cell is filled, or the entry is not a digit 1..9. Otherwise the digit is written when the check allows it and counted as a mistake when it does not. An accepted digit changes only the target cell and leaves the counters alone. A rejected digit leaves the board unchanged, adds exactly one mistake, and sets game over once mistakes reach 3. |
| Game.InputTakesEffect | app/page.js:70-81 | A corollary of `Game.HandleInput` for a concrete digit: a digit typed into an empty cell of a live game always has an effect. It is written when the check allows it and counted as a mistake otherwise. |
| Game.HandleInputKeepsInvariant | app/page.js:64-84 | Typing preserves the game invariant. The board keeps the puzzle's givens and stays conflict-free if the puzzle was. Mistakes stay at most 3, and the game is over exactly at 3. |
| Game.ThreeMistakesEndGame | app/page.js:75-81 | Three rejected digits end a fresh game without touching the board. After that, every entry is ignored. |
| Game.HandleSolve | app/page.js:55-62 | The board is replaced only by a full result of the solver; otherwise it is kept. Mistakes and the game-over flag are untouched. On a conflict-free board, the board becomes full exactly when a solution exists. |
| Game.HandleSolveKeepsInvariant | app/page.js:55-62 | Pressing "Solve" preserves the game invariant. |
| Game.Restart | app/page.js:86-90 | The result holds the initial puzzle, with 0 mistakes and the game not over, and it satisfies the game invariant. |
| Game.RestartForgetsHistory | app/page.js:86-90 | Any two states restart to the same state. |
| Game.DemoDuplicateRejected | app/page.js:39-49 | On the demo puzzle, typing 5 at row 0, column 2 is rejected because of the 5 at the start of that row, and it counts one mistake. |

## Left out

- Rendering, JSX, `useState` hooks, framer-motion animation and the CSS border-class arithmetic (app/page.js:92-160): these are presentation only.
- The `alert` on an unsolvable board (app/page.js:60): it is a browser side effect. `Game.HandleSolve` keeps the state unchanged in that case.
- `parseInt` (app/page.js:68): the entry is modelled as already parsed, either a number or `NotANumber`. The `NaN` comparisons in the source fail, which the model expresses by ignoring `NotANumber`.
- The batching of React state updates inside the `setMistakes` callback (app/page.js:75-81): each transition is one atomic step.
- The disabled "Solve" button once the game is over (app/page.js:147): that guard belongs to the rendering. The handler itself does not check the flag, and neither does the model.
- Solving the demo puzzle to its concrete solution, and proving the demo's givens conflict-free: both would make the verifier evaluate the whole 9×9 board, or the whole search.
- Which solution the solver returns when several exist (the first in ascending-digit, row-major order) is not stated. Only that it returns some solution is stated.
- Cell values outside 0..9 are excluded by the board predicate, since the page only ever stores values in 0..9. Out-of-range row or column indices are excluded by precondition.
