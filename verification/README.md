# Sudoku engine of `sudoku.py`, in Dafny

This project models the game engine inside `sudoku.py` and proves properties of it. The engine has three parts:

- **`SudokuSolver`**:
  - `is_valid`;
  - the in-place backtracking `solve`;
  - `fill_diagonal`, `remove_cells` and `generate_puzzle`;
  - the `MainWindow.new_game` pipeline, which re-solves a copy of the generated puzzle to get the stored solution.
- **The game session of `SudokuBoard`**, with the widgets taken away:
  - `load_puzzle`;
  - `on_cell_changed` (entries, mistakes, game over, completion);
  - `is_solved`, `check_solution` and `give_hint`;
  - the timer counter and the `divmod` clock split.
- **`SudokuValidator.validate`**, the filter on what a cell accepts.

Modules, one file each:

- `Boards` (`boards.dfy`):
  - the 9×9 grid: cells 0..9, with 0 meaning empty;
  - cell writes and the set of empty cells;
  - validity, solutions and row-major order;
  - the row-major scans used by `solve` and `give_hint`.
- `Solver` (`solver.dfy`): `is_valid` and `solve`.
  - `Solve` is a pure function. It returns whether the call succeeded and the board as it stands after the call, so the in-place undo of a failed digit is part of what is proved.
  - Besides soundness, completeness is proved. When some solution keeps the givens, `solve` succeeds, and it returns the least such solution in row-major order.
- `Generator` (`generator.dfy`): `fill_diagonal`, `remove_cells`, `generate_puzzle` and `new_game`.
- `Validator` (`validator.dfy`): `validate`.
- `Session` (`session.dfy`): the game state and its handlers, as pure transitions.
  - Read-only widgets become an explicit set of fixed cells.
  - Signals and dialogs become flags in a returned `Events` value.

Randomness is passed in as parameters:

- `random.shuffle` on the digits becomes three permutations of 1..9.
- `random.shuffle` on the positions becomes an ordering of the 81 coordinates.
- `random.choice` in `give_hint` becomes a number `pick`; the hinted cell is entry `pick % n` of the row-major list of the `n` empty cells. That list holds every empty cell exactly once (`Boards.EmptyCells`), so every choice is reachable.

The periodic `QTimer` becomes a `Tick` that the caller applies.

Behaviour of `sudoku.py` that the model keeps, some of it easy to misread:

- `is_valid` scans the cell itself as well as its row, column and block.
- A failed `solve` leaves the board exactly as it was given. It does not leave it empty.
- Game over is not terminal:
  - the handler keeps storing digits;
  - the mistake counter keeps rising past 3;
  - every further wrong digit raises game over again.
- `generate_puzzle` ignores the result of `solve` and never retries an unsolvable seed.

## Model

| member | source | states |
|---|---|---|
| Solver.IsValidIffAbsent | sudoku.py:165-174 | `is_valid` holds iff no cell in the same row, column or 3×3 block holds `num`. The cell itself counts. |
| Solver.Solve | sudoku.py:177-188 | On success the board is full and keeps every given. On failure the board is the input, unchanged. A full board succeeds at once and is left as it is. |
| Solver.TryDigits | sudoku.py:181-187 | The digit loop at the first empty cell has the same guarantees relative to its own starting board. When no digit works, the call fails with the cell still empty. |
| Solver.Attempt | sudoku.py:182-186 | One pass of the loop. On success the board is full, keeps the givens and holds `num` at the cell. On failure the reset at line 186 gives back exactly the board the pass started from. |
| Solver.SolveKeepsValid | sudoku.py:177-188 | Every digit placed passed `is_valid`, so a successful `solve` on a duplicate-free board returns a duplicate-free board. |
| Solver.ExtendsPut | sudoku.py:183-185 | A board that keeps the givens plus the placed digit keeps the original givens and holds that digit. |
| Solver.PutUndo | sudoku.py:183-186 | Writing a digit into an empty cell and then resetting it to 0 gives back the original board. |
| Solver.PlacementKeepsValid | sudoku.py:182-183 | Placing a digit that passes `is_valid` into an empty cell of a valid board keeps the board valid. |
| Solver.SolutionDigitIsValid | sudoku.py:165-174 | The digit any solution puts in an empty cell passes `is_valid` there. |
| Solver.SolveFindsSolution | sudoku.py:177-188 | If some full valid grid keeps the givens, `solve` succeeds. Its result comes no later than that grid in row-major order. |
| Solver.TryDigitsFindsSolution | sudoku.py:181-187 | If a solution extends the board and every cell before the branch cell is filled, the loop from any digit up to the solution's digit succeeds. It ends no later than that solution. |
| Solver.FirstSolutionBelow | sudoku.py:181-185 | A solution found with a smaller digit than another solution's, at the first empty cell, comes first in row-major order. |
| Solver.SolveSucceedsIffSolvable | sudoku.py:177-188 | On a duplicate-free board, `solve` succeeds iff the board can be completed to a full valid grid. What it returns is such a completion. |
| Boards.FirstEmptyFrom | sudoku.py:178-180 | The nested scan from a given cell on finds the first empty cell at or after it, with every cell in between filled. It finds none iff every cell from there on is filled. |
| Boards.FirstEmpty | sudoku.py:178-180 | The cell where `solve` branches: none iff the board is full. Otherwise it is an empty cell with every earlier cell filled. |
| Boards.EmptyCells | sudoku.py:412 | The list of empty cells `give_hint` chooses from. It holds exactly the empty cells, each once, in row-major order, and is empty iff the board is full. |
| Boards.EmptyFromComplete | sudoku.py:412 | The row-major scan from a cell on lists every empty cell at or after that cell. |
| Boards.EmptyFromAscending | sudoku.py:412 | The scan lists cells in strictly increasing row-major position, so no cell twice. |
| Boards.PutFillsOne | sudoku.py:183 | Filling an empty cell removes exactly that cell from the set of empty cells, which shrinks by one. That is the solver's termination measure. |
| Boards.DistinctCard | sudoku.py:211-213 | A list of distinct coordinates has as many elements as its set, so clearing a prefix of the shuffled list clears that many cells. |
| Generator.CellsToRemove | sudoku.py:210 | The number of cells to clear, from the list 45, 50, 55, 60 indexed by difficulty: between 45 and 60. |
| Generator.FillDiagonal | sudoku.py:198-206 | Blocks (0,0), (3,3) and (6,6) receive the three permutations in row-major order. Every cell off those blocks is untouched. |
| Generator.DiagonalBlocks | sudoku.py:202-206 | A board holding the per-cell diagonal digits holds each permutation in its block, in the order `idx` counts. |
| Generator.DiagonalCell | sudoku.py:203-205 | Read back from its block, a diagonal cell holds entry `3 * (row % 3) + col % 3` of that block's permutation. |
| Generator.DiagonalSeedValid | sudoku.py:198-206 | The seeded board has no duplicate in any row, column or block. Each diagonal block holds a permutation of 1..9. |
| Generator.ClearCells | sudoku.py:213-215 | The clearing loop zeroes exactly the listed cells. Every other cell keeps its value. |
| Generator.RemoveCells | sudoku.py:209-216 | The empty cells afterwards are the old ones plus the first `CellsToRemove(difficulty)` shuffled coordinates. Givens are kept. At least that many cells are empty, and exactly that many when the board was full. |
| Generator.ClearedZeroSet | sudoku.py:213-215 | Clearing the first `n` shuffled coordinates adds exactly those cells to the empty set. |
| Generator.PrefixCard | sudoku.py:211-213 | The first `n` coordinates of a permutation of the 81 cells are `n` different cells. |
| Generator.GeneratePuzzle | sudoku.py:191-195 | The puzzle is duplicate-free and is cut from the board `solve` left. When the seed is solvable, that board is a full valid grid and the puzzle has exactly `CellsToRemove(difficulty)` empty cells. |
| Generator.NewGame | sudoku.py:507-511 | The stored solution always keeps the puzzle's givens. When the seed is solvable, the solution is a full valid grid, and it comes no later in row-major order than the grid the puzzle was cut from. |
| Generator.ResolveFindsSolution | sudoku.py:509-510 | Re-solving a puzzle cut from a full valid grid succeeds, and no later in row-major order than that grid. |
| Validator.ValidateIff | sudoku.py:67-72 | The filter accepts exactly the empty text and the runs of consecutive ascending digits within 1..9. |
| Validator.PieceIsRun | sudoku.py:69-70 | Every non-empty piece of "123456789" is a run of consecutive ascending digits. |
| Validator.RunIsPiece | sudoku.py:69-70 | Every run of consecutive ascending digits from 1 to 9 is a piece of "123456789". |
| Validator.SingleCharacter | sudoku.py:67-72 | A single character is accepted iff it is a digit 1..9. "0" and letters are refused. |
| Session.Load | sudoku.py:368-383 | The board and solution are copied, the counters reset, the clock restarts, and the givens become fixed. When the solution keeps the givens, the fixed cells agree with it and the check passes. |
| Session.CellChanged | sudoku.py:385-406 | Empty text clears the cell with no other effect. A digit is stored even when it is wrong. The mistake counter rises by one iff the digit differs from the solution. Game over fires iff that rise reaches 3 or more. `puzzle_solved` fires iff the board then equals the solution. The clock stops on either. |
| Session.PlayerEdit | sudoku.py:385-402 | An edit of a cell that is not fixed, with text the filter accepts, changes no other cell and keeps every fixed cell at its solution digit. |
| Session.ValidatedText | sudoku.py:67-72 | Text the filter lets into a one-character cell is empty or one digit 1..9. |
| Session.GiveHint | sudoku.py:411-421 | With no empty cell, nothing changes. Otherwise the chosen empty cell gets its solution digit. It becomes fixed. `hints_used` rises by one and no mistake is counted. `puzzle_solved` fires iff the board is then solved, and the clock keeps running iff it was running and the hint did not solve the board. |
| Session.HintProgress | sudoku.py:411-421 | A hint keeps the fixed cells right and keeps `check_solution` true. When the solution is full, it removes one empty cell. |
| Session.HintUntilFull | sudoku.py:411-421 | Pressing Hint until no cell is empty always ends, whichever empty cell each press chooses and whether or not the player entered wrong digits. The board ends full; it is solved iff `check_solution` passed before the presses. No mistake is counted and one hint is counted per empty cell. When the last press solves the board the clock stops; otherwise it runs on as before. |
| Session.HintStep | sudoku.py:404-421 | One hint on a board with an empty cell removes one empty cell, leaves the wrong cells exactly as they were, keeps the fixed cells right and stops the clock iff it solves the board. |
| Session.IsSolvedIffEqual | sudoku.py:408-409 | `is_solved` holds iff the board equals the solution. |
| Session.CheckedAndFullIsSolved | sudoku.py:423-425 | With a full solution, `is_solved` holds iff `check_solution` passes and no cell is empty. |
| Session.GameOverNotTerminal | sudoku.py:392-402 | From three mistakes on, a wrong digit is stored, counts a further mistake and raises game over again. A right digit is stored with no mistake. |
| Session.ThirdMistakeStopsClock | sudoku.py:399-402 | The third wrong digit raises game over and stops the clock, which then no longer advances. |
| Session.GivenEchoHarmless | sudoku.py:376-380 | When `load_puzzle` shows a given, the handler runs with the given's own digit. If the solution keeps that given and the board is not yet solved, this changes nothing and raises nothing. |
| Session.GivenEchoOnSolved | sudoku.py:404-406 | If the board already equals the solution, showing a given stops the clock and raises `puzzle_solved`, and changes nothing else. |
| Session.TicksAdd | sudoku.py:364-366 | `k` firings of `update_timer` add `k` seconds while the timer runs and none while it is stopped. |
| Session.TimerCountsSeconds | sudoku.py:357-366 | After `start_timer`, the counter equals the number of ticks since. Ticking changes neither the board nor the mistake count. |
| Session.Clock | sudoku.py:347 | `divmod(elapsed, 60)`: minutes × 60 + seconds = elapsed, and seconds < 60. |
| Session.DigitRoundTrip | sudoku.py:415 | `int(str(d)) == d` for a digit: the hint's `setText` reaches the board as the same digit. |

## Left out

- The PyQt widgets, layouts, style sheets, themes, languages, right-to-left layout and message boxes: user interface with no engine logic.
- Qt signal plumbing: `textChanged` becomes a direct call and `puzzle_solved` a returned flag. `hint_used` is not modelled as a signal; a hint shows only as the rise of `hintsUsed`.
- `QTimer` scheduling: only the counter is modelled (`StartTimer`, `StopTimer`, `Tick`).
- `random.shuffle` and `random.choice`: their outcomes are parameters. The shuffles carry preconditions that they are permutations; the choice is taken modulo the number of empty cells.
- The progress bar percentage `int(filled / 81 * 100)`: it is floating-point display arithmetic.
- `resource_path` and the icon lookup: filesystem specifics.
- Negative `difficulty` values: Python would index `[45, 50, 55, 60]` from the end. The model requires 0..3, the values the difficulty selector produces.
- `update_stats` and the label texts: display only. The clock split is kept as `Clock`.
- `check_solution`'s message box: only the verdict is modelled, as `CheckSolution`.
- Session.Load: the `setText` echo of each given during loading is not replayed as a loop. `GivenEchoHarmless` shows that one echo leaves the state unchanged while the board is not yet solved, and the `setText("")` on editable cells writes the 0 the board already holds. When the loaded board already equals the solution, the echo stops the clock and raises `puzzle_solved` (`GivenEchoOnSolved`). That happens when `solve` fails on the copy in `new_game`, which leaves the solution equal to the puzzle; the resulting state after loading is not stated.
- Generator.GeneratePuzzle: it is not proved that every diagonal seed can be completed. The results that need a full solution are stated under the condition `SeedSolvable`, which says that `solve` succeeds on the seed.
- Generator.NewGame: for the same reason, that the stored solution is a full valid grid is stated under `SeedSolvable`. Without that condition only "keeps the givens" is proved.
- Session.GiveHint: the solution digit shown for a hint can be 0 only when the stored solution is incomplete. The model passes it through the handler as the source does, as text "0".
- Session.CellChanged: the red or green cell styling is not modelled.
- Session.CellChanged: the game-over and completion dialogs are represented only by the returned flags.
