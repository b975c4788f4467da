# Sudoku engine of the web game, modelled in Dafny

The repository is a browser Sudoku game in two versions. `sudoku.js` is the
full game. `script.js` is an earlier page with the same solver. Both work on a
9x9 grid of integers, where 0 is an empty cell and 1..9 a placed digit. This
project models that grid engine: the constraint check `isValid`, the
backtracking `solve`, the puzzle generator, the conflict validator, the hint,
the puzzle state with its locks and counters, the coordinate arithmetic of the
page, and the earlier page's board.

Modules:

- `Grid` (grid.dfy): the grid as 81 integers stored row by row, cell
  (row, col) at index 9 * row + col. It also holds the rules (`NoConflicts`,
  `Solved`) and the 27 units with the order in which the scans visit their
  cells.
- `Layout` (layout.dfy): how `createGrid` tags the cell-th input of the
  box-th box with a row and a column, and the order in which `forEach` visits
  the inputs. It also holds the arrow-key move of `handleCellKeydown`.
- `Checker` (checker.dfy): `isValid` of sudoku.js, as its three scans.
- `Solver` (solver.dfy): `solve` of sudoku.js.
  - `Search` is the search as a function.
  - `Solve` is the in-place method, proved to compute exactly `Search` and to
    leave the grid untouched when it fails.
  - On a grid free of conflicts the search is sound and complete: it succeeds
    exactly when a conflict-free completion exists.
- `Solutions` (solutions.dfy): a fixed full grid free of conflicts. It shows
  that solving the all-zero grid succeeds, so `generatePuzzle` always thins out
  a full grid. Every generated puzzle derives from that one base solution.
- `Validator` (validator.dfy): what the row, column and box scans of
  `validateGrid` mark. The marks are exactly the filled cells that share a unit
  with another cell holding the same digit.
- `Game` (game.dfy): `gameState` and the 81 inputs as a class, with the
  handlers that change them. The scans of `validateGrid` and the loops of
  `removeNumbers` and `giveHint` are methods with loop invariants.
- `Script` (script.dfy): `isValid` of script.js, as one combined loop, and its
  `solve`.
- `ScriptPage` (script_page.dfy): the board of script.js.

script.js appends its inputs box by box, but `getGrid` and `setGrid` read and
write input i * 9 + j as row i, column j. The model keeps this as written.
As a result:

- the solver's row i is the box shown at position i (`RowIsShownBox`);
- the solver's box b is the row shown at height b (`BoxIsShownRow`);
- the solver's columns are no unit of the page at all. With a single digit
  shown at the top-left corner, the script's check accepts the same digit at
  its cell (3, 3), which is shown at row 4, column 0, in the same column.

## Model

| member | source | states |
|---|---|---|
| Grid.BandIsDivision | sudoku.js:379-380 | the band of an index 0..8 is Math.floor(index / 3) and the offset inside it is index % 3 |
| Grid.UnitCellInjective | sudoku.js:205-221 | the scan of a row, a column or a box never visits a cell twice |
| Grid.UnitCellOnto | sudoku.js:205-221 | the scan of a unit visits every cell of that unit |
| Grid.SameUnitIffCommonUnit | sudoku.js:150-152 | two cells share a row, a column or a 3x3 box exactly when one of the 27 units holds both |
| Grid.IdxInjective | script.js:29 | the flat index i * 9 + j tells rows and columns apart, so distinct cells get distinct inputs |
| Grid.ZerosAfterFill | sudoku.js:350 | placing a digit into an empty cell leaves one empty cell fewer (the measure on which solve terminates) |
| Grid.ZerosAfterClear | sudoku.js:421-423 | emptying a filled cell leaves one empty cell more |
| Grid.SomeFilledCell | sudoku.js:417-421 | while fewer cells are empty than there are cells, removeNumbers has a filled cell to hit |
| Grid.CompleteIffNoZeros | sudoku.js:304-310 | a grid is full exactly when it has no empty cell |
| Grid.CompletesIsSolvedCandidate | sudoku.js:344-364 | a completion of a grid of digits is full and still holds only digits |
| Layout.BoxCellToRowCol | sudoku.js:49-53 | the row and column tagged on the cell-th input of the box-th box lie on the grid, in box `box` |
| Layout.BoxCellArithmetic | sudoku.js:50-51 | the tag is (floor(box / 3) * 3 + floor(cell / 3), (box % 3) * 3 + cell % 3) |
| Layout.BoxCellRoundTrip | sudoku.js:39-53 | applying the map to its own result gives back (box, cell): the map is its own inverse |
| Layout.BoxCellBijection | sudoku.js:39-65 | every cell of the grid is tagged on exactly one input |
| Layout.DomOrderBijection | sudoku.js:263-269 | the document order of the inputs and the row-major order of their cells are two numberings of the same 81 inputs, inverse to each other |
| Layout.DomVisit | sudoku.js:265-269 | the d-th input of a forEach writes exactly one grid cell |
| Layout.OverlayStep | sudoku.js:278-283 | one more step of a forEach copies one more input, in document order, and changes nothing else |
| Layout.OverlayEnds | sudoku.js:278-292 | before a forEach nothing is copied; after it every input is |
| Layout.UnvisitedStep | sudoku.js:284 | one more step of setGrid's forEach strips the 'conflict' mark of the input it visits and no other |
| Layout.UnvisitedEnds | sudoku.js:278-292 | after setGrid's forEach no input keeps a 'conflict' mark |
| Layout.Navigate | sudoku.js:100-123 | the four arrow keys move one step up, down, left or right, clamped to rows and columns 0..8; every other key leaves the handler |
| Checker.RowFree | sudoku.js:369-371 | the row scan finds nothing exactly when no cell of the row holds num |
| Checker.ColumnFree | sudoku.js:374-376 | the column scan finds nothing exactly when no cell of the column holds num |
| Checker.BoxLineFree | sudoku.js:383-385 | the inner box loop finds nothing exactly when no cell of that line of the box holds num |
| Checker.BoxFree | sudoku.js:382-386 | the box loops find nothing exactly when no cell of the 3x3 box holds num |
| Checker.IsValid | sudoku.js:367-389 | isValid is true exactly when num occurs nowhere in the row, the column or the box of (row, col), the cell itself included |
| Checker.ScansMeaning | sudoku.js:367-389 | the three scans together find nothing exactly when num is absent from the three units |
| Checker.ScansCoverUnits | sudoku.js:367-389 | when the scans find nothing, no cell of the three units holds num |
| Checker.ScansFindOccurrence | sudoku.js:367-389 | when a scan returns false, a cell of the three units holds num |
| Checker.SameBand | sudoku.js:379-386 | the box scan from 3 * floor(i / 3) covers exactly the three indices in the band of i |
| Solver.FirstEmpty | sudoku.js:345-347 | the row-major scan stops at the first empty cell; every earlier cell is filled |
| Solver.SearchCompletes | sudoku.js:344-364 | a successful solve fills every empty cell with a digit 1..9 and keeps every filled cell; a full grid succeeds at once, unchanged |
| Solver.TryDigitsCompletes | sudoku.js:348-359 | the digit loop succeeds only with a completion of its grid |
| Solver.SearchKeepsNoConflicts | sudoku.js:344-364 | a successful solve of a conflict-free grid ends conflict-free |
| Solver.TryDigitsKeepsNoConflicts | sudoku.js:348-359 | the digit loop keeps a conflict-free grid conflict-free |
| Solver.PlaceKeepsNoConflicts | sudoku.js:349-350 | placing a digit isValid accepts into an empty cell keeps the grid conflict-free |
| Solver.SearchFindsCompletion | sudoku.js:344-364 | when a conflict-free completion of the grid exists, solve succeeds |
| Solver.TryDigitsFindsCompletion | sudoku.js:348-359 | the digit loop reaches the digit of a conflict-free completion and succeeds |
| Solver.CompletionAllowed | sudoku.js:349 | the digit a conflict-free completion puts into an empty cell passes isValid |
| Solver.SearchIffSolvable | sudoku.js:344-364 | on a conflict-free grid solve succeeds exactly when a conflict-free completion exists, and what it leaves is such a completion |
| Solver.SearchAtFirstEmpty | sudoku.js:345-348 | the search starts its digit loop at the first empty cell in row-major order |
| Solver.TryDigitsStep | sudoku.js:348-358 | one digit of the loop: a rejected digit or a failed recursion moves on to the next digit, a successful recursion ends the loop with its grid |
| Solver.Solve | sudoku.js:344-364 | solve returns true exactly when the search succeeds; the grid then holds the search's result; on false every speculative placement is undone and the grid is as on entry |
| Solver.TryDigitsAt | sudoku.js:348-359 | the digit loop at the first empty cell computes the search's digit loop, and leaves the grid as on entry when no digit works |
| Solver.TryDigit | sudoku.js:349-357 | a digit is kept exactly when isValid accepts it and the recursion succeeds; otherwise the cell is put back to 0 |
| Solutions.PatternPeersDiffer | sudoku.js:400-402 | the fixed full grid gives different digits to any two cells that share a unit |
| Solutions.PatternSolved | sudoku.js:400-402 | the fixed full grid is solved |
| Solutions.EmptyGridSolvable | sudoku.js:400-402 | solving the all-zero grid succeeds and gives a solved grid, although generatePuzzle ignores the answer |
| Solutions.NoConflictsOfCompletion | sudoku.js:453-455 | a grid that some conflict-free grid completes is conflict-free |
| Solutions.BaseSolution | sudoku.js:400-402 | the grid every generated puzzle is cut from is solved |
| Solutions.PuzzleSolvable | sudoku.js:404-408 | a puzzle that agrees with the base solution on its filled cells can be solved |
| Solutions.HintKeepsSolvable | sudoku.js:453-458 | writing the hint's digit into a conflict-free grid keeps it conflict-free and solvable |
| Solutions.SearchSolves | sudoku.js:328-332 | a successful solve of a conflict-free grid of digits gives a solved grid |
| Solutions.SolvedUnitHoldsEachDigitOnce | sudoku.js:300-313 | in a solved grid every row, column and box holds each digit 1..9 exactly once |
| Validator.NoMarksIffNoConflicts | sudoku.js:176-224 | no cell is marked exactly when no unit repeats a digit |
| Validator.SeenMeaning | sudoku.js:180-190 | the Set of a scan holds exactly the non-zero digits met so far in the unit |
| Validator.CellsWithBeforeAll | sudoku.js:228-258 | walking a unit cell by cell marks every cell of the unit holding num |
| Validator.UnitMarksMeaning | sudoku.js:183-201 | after j cells of a unit scan, a cell is marked exactly when it is in the unit and holds a digit already met twice |
| Validator.UnitMarksStep | sudoku.js:185-190 | one cell further, the marks grow by the cells of the unit holding the digit just met, when it is non-zero and already in the Set |
| Validator.CellsWithMeaning | sudoku.js:228-258 | the cells one mark call marks are exactly the cells of the unit holding num |
| Validator.UnitMarksAreConflicts | sudoku.js:183-221 | a cell the scan of a unit marks has a peer holding its digit |
| Validator.MarkedCellHasTwin | sudoku.js:186-187 | a cell of a unit whose digit the scan met twice has a twin in that unit |
| Validator.TwinInUnit | sudoku.js:183-201 | another cell of a unit holding the same digit is a twin |
| Validator.MetTwice | sudoku.js:186 | two cells of a unit holding the same digit make the scan meet it twice |
| Validator.ConflictIsMarked | sudoku.js:183-221 | a filled cell with a twin is marked by the scan of a unit holding both, every occurrence and not only the second |
| Validator.LineMarksSound | sudoku.js:179-202 | the row and column scans mark only filled cells with a twin |
| Validator.LineMarksKeep | sudoku.js:179-202 | marks of an earlier row or column scan survive the later ones |
| Validator.BoxMarksSound | sudoku.js:205-222 | the box scans mark only filled cells with a twin |
| Validator.BoxMarksKeep | sudoku.js:205-222 | marks of an earlier box scan survive the later ones |
| Validator.ScansMarkConflictCells | sudoku.js:168-225 | the scans together mark exactly the filled cells with a twin |
| Validator.ConflictInScans | sudoku.js:168-225 | every filled cell with a twin is marked by one of the scans |
| Game.Clues | sudoku.js:393-398 | the clue table: easy 35, medium 30, hard 25, expert 20, each within 0..81 |
| Game.Game.constructor | sudoku.js:1-10 | the initial state: empty inputs, no locks, no marks, no snapshot, no moves, three hints, medium difficulty |
| Game.Game.GetGrid | sudoku.js:261-272 | reading the inputs in document order through their tags gives exactly the stored grid |
| Game.Game.SetGrid | sudoku.js:275-297 | every input takes the grid's value and loses its mark; an input is given exactly when locking and non-zero; locking snapshots the grid |
| Game.Game.ValidateGrid | sudoku.js:168-225 | the marks become exactly the filled cells with a twin; the answer is true exactly when no unit repeats a digit; nothing else changes |
| Game.Game.IsPuzzleSolved | sudoku.js:300-314 | true exactly when the grid is full and free of conflicts; the marks are refreshed only when the grid is full |
| Game.Game.SolveSudoku | sudoku.js:317-341 | succeeds exactly when the search does, then writes back the search's completion unlocked and unmarked; on failure nothing changes; the result is solved exactly when the entry grid was conflict-free |
| Game.Game.GeneratePuzzle | sudoku.js:392-411 | exactly clues[difficulty] cells are filled, each with the base solution's digit; the filled cells are the given ones; the snapshot is the puzzle; no marks, no moves, three hints |
| Game.Game.SelectDifficulty | sudoku.js:561-568 | a difficulty button switches the difficulty and generates a puzzle with its clue count |
| Game.Game.GiveHint | sudoku.js:429-472 | nothing changes without hints, without an empty cell or when the copy cannot be solved; otherwise only the chosen empty cell changes, to the search's digit there, one hint fewer and one move more, marks refreshed |
| Game.Game.ClearGrid | sudoku.js:475-484 | every input that is not given is emptied, given inputs keep their digit, the marks are refreshed |
| Game.Game.ResetGrid | sudoku.js:487-495 | with a snapshot the inputs go back to it, locked as given; without one the inputs are cleared; then no moves and three hints |
| Game.Game.ResetGameStats | sudoku.js:526-530 | no moves and three hints |
| Game.Game.SelectCell | sudoku.js:86-97 | focusing or clicking an input makes it the selected cell |
| Game.Game.CellKeyDown | sudoku.js:100-132 | an arrow key selects the clamped neighbour; any other key changes nothing |
| Game.Game.KeyDown | sudoku.js:572-578 | a key between "1" and "9" is written only into a selected input that is not given, counts a move and refreshes the marks; no given input ever changes |
| Game.Game.HandleCellInput | sudoku.js:69-83 | a non-empty input counts one move and refreshes the marks; an empty one changes nothing |
| Game.ScanGrid | sudoku.js:176-224 | the row, column and box scans leave exactly the filled cells with a twin marked and answer true exactly when no unit repeats a digit |
| Game.MarkConflicts | sudoku.js:228-258 | a mark helper adds exactly the cells of the unit holding num |
| Game.ScanLines | sudoku.js:179-202 | the row and column loop marks what the scans of all rows and columns mark, and flags a conflict exactly when it marked something |
| Game.ScanLine | sudoku.js:180-201 | one turn scans row i and column i side by side and adds their marks |
| Game.ScanBoxes | sudoku.js:205-222 | the box loop adds what the scans of all boxes mark, and flags a conflict only when it marked something |
| Game.ScanBox | sudoku.js:206-221 | one box is scanned line by line and its marks are added |
| Game.ScanCell | sudoku.js:185-191 | a non-zero digit already in the Set marks the unit's cells holding it; a non-zero digit joins the Set |
| Game.RemoveNumbers | sudoku.js:414-426 | exactly count previously filled cells are emptied and every other cell keeps its value |
| Game.EmptyCellsMeaning | sudoku.js:439-445 | the list of empty cells holds exactly the empty cells of the scanned prefix |
| Game.EmptyCellsComplete | sudoku.js:447 | the list of empty cells is empty exactly when the grid is full |
| Game.FindEmptyCells | sudoku.js:436-445 | the nested loops push the empty cells in row-major order |
| Game.Pick | sudoku.js:450 | Math.floor(Math.random() * n) is an index below n |
| Game.HintCell | sudoku.js:450 | the cell giveHint picks is empty |
| Game.KeyGuardDigit | sudoku.js:573-574 | every key the string comparison lets through starts with a digit 1..9; among one-character keys it lets through exactly '1'..'9' |
| Game.ClearInputs | sudoku.js:476-482 | the forEach of clearGrid empties exactly the inputs that are not given |
| Game.MakePuzzle | sudoku.js:400-406 | the grid before setGrid has exactly count empty cells and the base solution's digit in every other cell |
| Game.FindHint | sudoku.js:435-458 | no hint exactly when the grid is full or the copy cannot be solved; otherwise the picked empty cell and the digit 1..9 the search puts there |
| Script.LoopBoxCell | script.js:53-54 | the box cell of turn i lies on the grid |
| Script.LoopBoxCellInBox | script.js:53-55 | turn i of the loop reads the i-th cell of the box of (row, col), so the nine turns read the whole box |
| Script.LoopFree | script.js:51-57 | the loop from turn i finds nothing exactly when no later turn meets num in the row, the column or the box |
| Script.LoopScanMeaning | script.js:50-58 | the single loop finds nothing exactly when num occurs nowhere in the three units |
| Script.OccurrenceMet | script.js:50-58 | a cell of the row, the column or the box holding num is read by some turn of the loop |
| Script.MeetingOccurs | script.js:50-58 | every cell a turn of the loop reads lies in the row, the column or the box of the cell |
| Script.ScriptIsValid | script.js:50-58 | isValid of script.js is true exactly when num is absent from the row, the column and the box of (row, col) |
| Script.ScriptIsValidAgrees | script.js:50-58 | the single loop answers exactly what the three loops of sudoku.js answer |
| Script.Solve | script.js:60-76 | solve of script.js computes the same search: its result on success, the entry grid on failure |
| Script.TryDigitsAt | script.js:64-71 | the digit loop computes the search's digit loop and restores the grid when no digit works |
| Script.TryDigit | script.js:65-69 | a digit is kept exactly when isValid accepts it and the recursion succeeds; otherwise the cell is put back to 0 |
| ScriptPage.Board.constructor | script.js:5-20 | the page as built: 81 empty, editable inputs |
| ScriptPage.Board.GetGrid | script.js:23-34 | row i, column j of the grid read is input i * 9 + j |
| ScriptPage.Board.SetGrid | script.js:36-48 | input i * 9 + j takes row i, column j; with lockInitial the non-zero inputs become read-only; no lock is ever released |
| ScriptPage.Board.ClearGrid | script.js:87-92 | every input that is not read-only is emptied, the read-only ones keep their digit, no lock changes |
| ScriptPage.Board.ResetGrid | script.js:94-101 | every input is emptied and every lock released |
| ScriptPage.Board.SolveSudoku | script.js:78-85 | the inputs are overwritten, without locking, with the search's completion exactly when solve succeeds; on failure nothing changes |
| ScriptPage.InputsShown | script.js:5-20 | listing a shown grid in document order and reading it back row by row are inverse |
| ScriptPage.RowIsShownBox | script.js:5-34 | row i of the grid the script reads is the box shown at position i |
| ScriptPage.BoxIsShownRow | script.js:5-34 | box b of the grid the script reads is the row shown at height b |
| ScriptPage.LoneDigitInput | script.js:5-20 | a digit shown alone at the top-left corner is the first input, and every other input is empty |
| ScriptPage.ScriptAcceptsNextToOrigin | script.js:50-58 | with a digit shown alone at the top-left corner, the script's isValid accepts that digit at its cell (3, 3) |
| ScriptPage.ScriptCellShownAt | script.js:5-34 | the script's cell (3, 3) is the input shown at row 4, column 0 |
| ScriptPage.OriginColumnHolds | script.js:5-20 | the input shown at row 4, column 0 shares its shown column with the top-left corner |

## Left out

- DOM work with no bearing on the grid is not modelled: the highlight, pulse and celebrate classes, alert, updateStats and the solve button's label. A failed solve's alert is the `false` answer of `SolveSudoku`.
- The timer (setInterval, clearInterval, the MM:SS display) is not modelled. It is wall-clock and display only.
- The theme toggle and localStorage are not modelled. They are UI and external storage only.
- The `setTimeout` that defers solveSudoku and its `isSolving` guard are not modelled. `SolveSudoku` runs the deferred body at once, and the model has no concurrency to guard against.
- The `input` handler's filter `replace(/[^1-9]/g, '')` of typed text is not modelled. Inputs hold 0 or one digit 1..9, which is the `Digits` part of `Valid`.
- Game.Game.KeyDown: writes the digit of the key's first character. For a key of several characters that passes the string comparison, the source writes the whole key and then filters it to its digits. One-character keys, the only ones a keyboard sends in that range, are modelled exactly (`KeyGuardDigit`).
- Game.RemoveNumbers: Math.random's choice of cell is a nondeterministic choice of a filled cell. Draws that hit an empty cell change nothing and are skipped. The precondition that count cells are filled is where the source would loop forever. generatePuzzle always meets it.
- Game.Game.GiveHint: Math.random() is the parameter `rand` in [0, 1).
- Game.Game.SetGrid: requires a grid of digits 0..9. Every caller passes one (the solver's completions and the snapshot), and the page can show nothing else.
- Two-dimensional arrays are flat sequences of 81 cells. The row i, column j entry of the source is index 9 * i + j.
- validateGrid toggles the 'conflict' class while it scans. The model gathers the marks in a set and stores it at the end, since nothing reads the marks during the scans. The mark removal inside clearGrid's forEach is subsumed by the validateGrid that follows it.
- script.js sets `readOnly` and the 'given' class together. `ScriptPage.Board` keeps them as one lock.
- Solver.SearchIffSolvable: stated for grids free of conflicts only. On a grid that already has a conflict the search may still succeed, because isValid is asked only about the digits it places.
- The dark-mode toggle of script.js (script.js:104-107) and its `oninput` filter (script.js:13-15) are not modelled, for the same reasons as in sudoku.js.
