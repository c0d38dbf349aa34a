# Sudoku solver back end: a Dafny model

This project models the solving code of a small Flask Sudoku web service. The
model covers four parts of `app.py`:

- `is_valid` checks whether a digit may go in a cell.
- `solve_sudoku_util` is the recursive backtracking search that fills a 9×9 grid in place.
- `solve_puzzle` turns the 81-value request list into a grid and solves it.
- The `/solve` handler checks the request and flattens the solved grid back into a list.

The project is split into three modules:

- **Board** (`board.dfy`) holds the board as 81 integers in row-major order, where 0 means empty.
  - `Sees` is the row/column/3×3-box relation between cells.
  - `Placeable` states what `is_valid` checks.
  - `Consistent` means no two cells that see each other hold the same nonzero value.
  - `Completes(s, g)` means `s` is a valid filled Sudoku that keeps every given of `g`.
  - It also has the empty-cell count and the first empty cell in row-major order.
- **Backtracking** (`backtracking.dfy`) holds the search as pure functions.
  - `Solve` takes the first empty cell. `TryDigits` tries 1..9 at that cell in ascending order.
  - They return whether the search succeeded and the board it leaves behind.
  - Its lemmas prove termination, soundness and completeness.
  - Completeness is proved in a strong form: whenever a completion exists, the board found is itself a completion, and it is the row-major lexicographically least one.
- **App** (`app.dfy`) holds the imperative code on a 9×9 `array2<int>` that is changed in place.
  - `SolveSudokuUtil` and `FillCell` make up the solver.
  - The other members are `IsValid`, `SetCell` (one cell write), `Reshape`, `Flatten`, `SolvePuzzle` and `HandleSolve`.
  - Each solver method is proved to compute exactly the pure search on the board the grid held on entry.
  - The pure lemmas therefore carry over to the grid.

One behaviour deserves a note. A Sudoku service might be expected to reject givens that already conflict, but this code never checks the givens. A completely filled grid is reported solved at `app.py:60` even when it breaks every rule. The model follows the code:

- `Backtracking.ConflictingFilledBoardAccepted` shows the 81-ones board being accepted.
- Soundness (`Backtracking.SolveSound`, and the matching clause of `App.HandleSolve`) is therefore stated only for consistent givens.

## Model

| member | source | states |
|---|---|---|
| Board.IndexSplits | app.py:78 | the row-major position r * 9 + c splits back into row r and column c |
| Board.IndexRoundTrip | app.py:115 | every position below 81 is r * 9 + c for a row and a column below 9 |
| Board.BoxCorner | app.py:30-36 | a row lies among the three rows scanned from row - row % 3 exactly when it is in the same band of three as row (likewise for columns) |
| Board.ZeroCount | app.py:50 | the number of empty cells is zero exactly when no cell is 0 |
| Board.ZeroCountPlace | app.py:50-55 | writing a nonzero digit into an empty cell lowers the empty-cell count by exactly one, so each recursive call has fewer empty cells |
| Board.FirstEmpty | app.py:48-50 | the position found holds 0 and every earlier position in row-major order is nonzero, or no cell is empty |
| Board.PlaceKeepsConsistent | app.py:52-53 | writing a digit that is_valid accepts into an empty cell keeps a conflict-free board conflict-free |
| Board.CompletionDigitPlaceable | app.py:51-53 | the digit any completion puts in an empty cell passes is_valid, and the completion still completes the board with that digit written |
| Backtracking.Solve | app.py:39-60 | the search only writes digits 1..9 into cells that were 0, a success leaves no 0 cell, and a failure returns the board unchanged |
| Backtracking.TryDigits | app.py:51-59 | the same guarantees for the digit loop at one empty cell from a given digit on |
| Backtracking.DigitStep | app.py:52-58 | one turn of the digit loop, unfolding `TryDigits` for a single digit: a placeable digit whose recursive search succeeds ends the loop with that result; any other digit passes to the next one |
| Backtracking.FilledBoardAccepted | app.py:48-60 | a board without empty cells is reported solved and returned as it is |
| Backtracking.ConflictingFilledBoardAccepted | app.py:60 | the board of 81 ones has conflicts, yet it is reported solved |
| Backtracking.SolveKeepsConsistent | app.py:51-53 | every digit written was placeable when written, so a conflict-free board stays conflict-free |
| Backtracking.TryDigitsKeepsConsistent | app.py:51-59 | the same for the digit loop |
| Backtracking.SolveSound | app.py:39-60 | for conflict-free givens in 0..9, a successful search returns a valid complete Sudoku that keeps every given |
| Backtracking.SolveFindsLeastCompletion | app.py:48-59 | if any completion exists the search succeeds, with a board no later than every completion in row-major lexicographic order |
| Board.CompletionGivesConsistent | app.py:48-60 | a board that has a completion has givens in 0..9 with no two conflicting, so the soundness lemma applies to every completable board |
| Backtracking.SolveFindsCompletion | app.py:39-60 | if any completion exists the search succeeds, its board is itself a completion of the givens, and it is no later than every completion: the row-major lexicographically least one |
| Backtracking.DigitLoopReaches | app.py:51-59 | the digit loop succeeds with a board no later than a completion once every earlier digit either passes on or succeeds that way |
| Backtracking.EarlierDigitsOrdered | app.py:51-58 | every digit below the completion's digit at the first empty cell either passes on or ends in a board preceding that completion |
| Backtracking.CompletionDigitFirstSolves | app.py:52-56 | the completion's own digit at the first empty cell is placeable and its recursive search succeeds with a board no later than the completion |
| Backtracking.SmallerDigitFirst | app.py:52-56 | a smaller digit whose search succeeds yields a board that precedes the completion |
| Backtracking.SolvedIffCompletable | app.py:39-60 | for conflict-free givens in 0..9, the search succeeds exactly when a completion exists |
| App.RowCells | app.py:115 | one row of the grid as a list of its nine cells in column order |
| App.FlattenRows | app.py:115 | the first n rows concatenated: 9n values, with cell (r, c) at r * 9 + c |
| App.Flatten | app.py:115 | the comprehension gives 81 values with cell (r, c) at position r * 9 + c |
| App.Reshape | app.py:78 | the reshaped grid holds puzzle[r * 9 + c] at (r, c), and flattening it gives the list back |
| App.IsValid | app.py:12-37 | the three scans answer true exactly when num is absent from the cell's row, its column and its 3×3 box |
| App.SetCell | app.py:53-58 | a cell write changes the flattened board at that cell's position only |
| App.SolveSudokuUtil | app.py:39-60 | the in-place solver returns the answer of Solve on the entry board and leaves Solve's board in the grid |
| App.FillCell | app.py:51-59 | the in-place digit loop, with placement and backtracking reset, returns the answer of TryDigits and leaves its board in the grid |
| App.SolvePuzzle | app.py:62-86 | None for a list not 81 long; otherwise a fresh solved 9×9 grid exactly when the search succeeds, holding the search's board |
| App.HandleSolve | app.py:108-118 | input rejected exactly when it is not 81 values in 0..9; otherwise the answer is "solved" exactly when the search succeeds; a solution has no 0 cell, completes conflict-free givens, and a completable request is always answered with a completion of it |

## Left out

- Flask routing, JSON decoding, HTTP status codes, logging and the catch-all 500 handler (`app.py:89-124`) are I/O plumbing. `App.HandleSolve` keeps only the request check, the call to the solver and the flattening.
- The `isinstance` checks (`app.py:72`, `app.py:103`, `app.py:109`) have no counterpart. The request is modelled as a sequence of integers, and Python's `bool`-is-`int` quirk is not modelled.
- The numpy conversion and its `ValueError` guard (`app.py:77-80`) are not modelled as a library call. `App.Reshape` is the explicit row-major mapping. The guard cannot fire once the length is 81.
- `App.Reshape` requires 81 values, because its only caller checks the length first (`app.py:72-74`).
- The grid is a Dafny `array2<int>` rather than a Python list of lists. Rows are not separate objects, so row aliasing is not modelled. Nothing in the code aliases rows.
- `solve_sudoku_util` is one Python function. Here it is two mutually recursive methods: `App.SolveSudokuUtil` scans for the empty cell, and `App.FillCell` runs the digit loop at it. The behaviour is the same.
- Python integers are unbounded, and so are Dafny's. No width is modelled.
- App.SolvePuzzle: does not model the `OverflowError` that `dtype=int` at `app.py:78` raises for a Python integer outside numpy's fixed-width range. The `except ValueError` at `app.py:79` does not catch it, so it escapes `solve_puzzle`. Through `/solve` it cannot happen, because `app.py:108-110` admits only 0..9 first. A direct call with such a value would raise; the model returns the search's result instead.
- `static/script.js` (the browser UI and its `fetch` call) is not part of this model.
