/**
 * The game of sudoku.js: its state (gameState and the 81 inputs of the page)
 * and the handlers that change it.
 *
 * The inputs are abstracted as an 81-cell store in grid order: `values`
 * holds each input's digit (0 for an empty input), `given` its read-only
 * 'given' flag, and `conflicts` the cells carrying the 'conflict' class. The
 * handlers walk the inputs in document order, box by box, and reach a cell
 * through its row and column tags (Layout).
 */
module Game {
  import opened Grid
  import opened Layout
  import opened Checker
  import opened Solver
  import opened Validator
  import opened Solutions

  datatype Difficulty = Easy | Medium | Hard | Expert

  /** A (row, column) position of an input of the page. */
  type Cell = p: (int, int) | InGrid(p.0, p.1) witness (0, 0)

  /** The clue table of generatePuzzle. */
  function Clues(d: Difficulty): (n: int)
    ensures 0 <= n <= 81
  {
    match d
    case Easy => 35
    case Medium => 30
    case Hard => 25
    case Expert => 20
  }

  class Game {
    var values: seq<int>
    var given: seq<bool>
    var conflicts: set<Cell>
    var initialGrid: Option<seq<int>>
    var moves: int
    var hints: int
    var difficulty: Difficulty
    var selected: Option<(int, int)>

    /**
     * Every input holds 0 (empty) or a digit; a given cell holds a digit,
     * the one the locked snapshot recorded for it; the selected cell lies on
     * the grid.
     */
    ghost predicate Valid()
      reads this`values, this`given, this`initialGrid, this`selected
    {
      |values| == 81 && |given| == 81 && Digits(values) &&
      (initialGrid.Some? ==> |initialGrid.value| == 81 && Digits(initialGrid.value)) &&
      (forall k :: 0 <= k < 81 && given[k] ==>
        values[k] != 0 && initialGrid.Some? && initialGrid.value[k] == values[k]) &&
      (selected.Some? ==> InGrid(selected.value.0, selected.value.1))
    }

    /** The page after createGrid and the initial gameState: empty inputs, three hints. */
    constructor ()
      ensures Valid()
      ensures values == seq(81, _ => 0) && given == seq(81, _ => false) && conflicts == {}
      ensures initialGrid == None && moves == 0 && hints == 3 && difficulty == Medium && selected == None
    {
      values := seq(81, _ => 0);
      given := seq(81, _ => false);
      conflicts := {};
      initialGrid := None;
      moves := 0;
      hints := 3;
      difficulty := Medium;
      selected := None;
    }

    /** getGrid: read every input, in document order, into a fresh grid. */
    method GetGrid() returns (grid: array<int>)
      requires Valid()
      ensures fresh(grid) && grid.Length == 81 && grid[..] == values
    {
      grid := new int[81](_ => 0);
      ghost var zeros := grid[..];
      OverlayEnds(zeros, values);
      for d := 0 to 81
        invariant grid[..] == Overlay(zeros, values, d)
      {
        var k := DomPos(d);
        OverlayStep(zeros, values, d);
        grid[k] := values[k];
      }
    }

    /**
     * setGrid(grid, lockInitial): every input takes the grid's value, loses
     * its 'conflict' mark and is given exactly when locking and non-zero;
     * locking also snapshots the grid.
     */
    method SetGrid(grid: seq<int>, lock: bool)
      requires Valid() && |grid| == 81 && Digits(grid)
      modifies this`values, this`given, this`conflicts, this`initialGrid
      ensures Valid()
      ensures values == grid && conflicts == {}
      ensures forall k :: 0 <= k < 81 ==> (given[k] <==> lock && grid[k] != 0)
      ensures initialGrid == if lock then Some(grid) else old(initialGrid)
    {
      var locked := seq(81, k requires 0 <= k < 81 => lock && grid[k] != 0);
      var cells, locks := values, given;
      var marks: set<(int, int)> := conflicts;
      OverlayEnds(values, grid);
      OverlayEnds(given, locked);
      UnvisitedEnds(conflicts);
      for d := 0 to 81
        invariant cells == Overlay(values, grid, d)
        invariant locks == Overlay(given, locked, d)
        invariant marks == Unvisited(conflicts, d)
        modifies {}
      {
        var k := DomPos(d);
        OverlayStep(values, grid, d);
        OverlayStep(given, locked, d);
        UnvisitedStep(conflicts, d);
        cells := cells[k := grid[k]];
        marks := marks - {(k / 9, k % 9)};
        locks := locks[k := lock && grid[k] != 0];
      }
      values, given, conflicts := cells, locks, marks;
      if lock {
        initialGrid := Some(grid);
      }
    }

    /** Everything but the 'conflict' marks is as it was. */
    twostate predicate OnlyMarksChanged()
      reads this
    {
      values == old(values) && given == old(given) && initialGrid == old(initialGrid) &&
      moves == old(moves) && hints == old(hints) && difficulty == old(difficulty) && selected == old(selected)
    }

    /**
     * validateGrid: scan rows and columns, then boxes, marking every
     * occurrence of a digit that a unit repeats. The marks end up on exactly
     * the filled cells with a peer holding the same digit, and the answer is
     * true exactly when no unit repeats a digit.
     */
    method ValidateGrid() returns (ok: bool)
      requires Valid()
      modifies this`conflicts
      ensures Valid() && OnlyMarksChanged()
      ensures conflicts == ConflictCells(values)
      ensures ok <==> NoConflicts(values)
    {
      var grid := GetGrid();
      // The forEach that strips every 'conflict' class.
      conflicts := {};
      var marks;
      marks, ok := ScanGrid(grid[..]);
      conflicts := marks;
    }

    /**
     * isPuzzleSolved: false at the first empty cell in row-major order
     * (the marks stay as they were); otherwise the answer of validateGrid.
     */
    method IsPuzzleSolved() returns (solved: bool)
      requires Valid()
      modifies this`conflicts
      ensures Valid() && OnlyMarksChanged()
      ensures solved <==> Solved(values)
      ensures Complete(values) ==> conflicts == ConflictCells(values)
      ensures !Complete(values) ==> conflicts == old(conflicts)
    {
      var grid := GetGrid();
      for row := 0 to 9
        invariant forall k :: 0 <= k < 9 * row ==> grid[k] != 0
      {
        for col := 0 to 9
          invariant forall k :: 0 <= k < 9 * row + col ==> grid[k] != 0
        {
          if grid[9 * row + col] == 0 {
            return false;
          }
        }
      }
      solved := ValidateGrid();
    }

    /**
     * solveSudoku: solve a copy of the inputs; on success write it back
     * unlocked (setGrid without lockInitial), on failure leave the page as
     * it is. The answer stands for the two branches (the alert).
     */
    method SolveSudoku() returns (solved: bool)
      requires Valid()
      modifies this`values, this`given, this`conflicts, this`initialGrid
      ensures Valid()
      ensures solved <==> Search(old(values)).Some?
      ensures solved ==> values == Search(old(values)).value && Completes(old(values), values)
      ensures solved ==> (Solved(values) <==> NoConflicts(old(values)))
      ensures solved ==> conflicts == {} && forall k :: 0 <= k < 81 ==> !given[k]
      ensures !solved ==> values == old(values) && given == old(given) && conflicts == old(conflicts)
      ensures initialGrid == old(initialGrid) && moves == old(moves) && hints == old(hints)
      ensures difficulty == old(difficulty) && selected == old(selected)
    {
      ghost var entry := values;
      var grid := GetGrid();
      solved := Solve(grid);
      if solved {
        SearchCompletes(entry);
        CompletesIsSolvedCandidate(entry, grid[..]);
        if NoConflicts(entry) {
          SearchKeepsNoConflicts(entry);
        }
        if NoConflicts(grid[..]) {
          NoConflictsOfCompletion(entry, grid[..]);
        }
        SetGrid(grid[..], false);
      }
    }

    /**
     * generatePuzzle: solve the all-zero grid, empty 81 - clues of its
     * cells, lock the rest as the givens and reset the counters.
     */
    method GeneratePuzzle()
      requires Valid()
      modifies this`values, this`given, this`conflicts, this`initialGrid, this`moves, this`hints
      ensures Valid()
      ensures 81 - Zeros(values) == Clues(difficulty)
      ensures forall k :: 0 <= k < 81 ==> values[k] == 0 || values[k] == BaseSolution()[k]
      ensures forall k :: 0 <= k < 81 ==> (given[k] <==> values[k] != 0)
      ensures initialGrid == Some(values) && conflicts == {}
      ensures moves == 0 && hints == 3
    {
      var grid := MakePuzzle(81 - Clues(difficulty));
      SetGrid(grid[..], true);
      ResetGameStats();
    }

    /** A difficulty button: switch the difficulty and generate a new puzzle. */
    method SelectDifficulty(d: Difficulty)
      requires Valid()
      modifies this`values, this`given, this`conflicts, this`initialGrid, this`moves, this`hints, this`difficulty
      ensures Valid() && difficulty == d
      ensures 81 - Zeros(values) == Clues(d)
      ensures forall k :: 0 <= k < 81 ==> values[k] == 0 || values[k] == BaseSolution()[k]
      ensures forall k :: 0 <= k < 81 ==> (given[k] <==> values[k] != 0)
      ensures initialGrid == Some(values) && conflicts == {}
      ensures moves == 0 && hints == 3
    {
      difficulty := d;
      GeneratePuzzle();
    }

    /**
     * giveHint with rand standing for Math.random(): pick an empty cell,
     * solve a copy of the grid and write the digit the solution has there.
     * Nothing changes without hints, without an empty cell or when the copy
     * cannot be solved.
     */
    method GiveHint(rand: real)
      requires Valid() && 0.0 <= rand < 1.0
      modifies this`values, this`conflicts, this`hints, this`moves
      ensures Valid()
      ensures old(hints) <= 0 || Complete(old(values)) || Search(old(values)).None? ==>
        values == old(values) && conflicts == old(conflicts) && hints == old(hints) && moves == old(moves)
      ensures old(hints) > 0 && !Complete(old(values)) && Search(old(values)).Some? ==>
        var cell := HintCell(old(values), rand);
        old(values)[Idx(cell.0, cell.1)] == 0 &&
        values == old(values)[Idx(cell.0, cell.1) := Search(old(values)).value[Idx(cell.0, cell.1)]] &&
        conflicts == ConflictCells(values) && hints == old(hints) - 1 && moves == old(moves) + 1
      ensures given == old(given) && initialGrid == old(initialGrid)
      ensures difficulty == old(difficulty) && selected == old(selected)
    {
      if hints <= 0 {
        return;
      }
      var grid := GetGrid();
      var hint := FindHint(grid[..], rand);
      if hint.Some? {
        var (cell, correctNumber) := hint.value;
        values := values[Idx(cell.0, cell.1) := correctNumber];
        hints := hints - 1;
        moves := moves + 1;
        var _ := ValidateGrid();
        var _ := IsPuzzleSolved();
      }
    }

    /**
     * clearGrid: empty every input that is not given, in document order,
     * then validate.
     */
    method ClearGrid()
      requires Valid()
      modifies this`values, this`conflicts
      ensures Valid() && given == old(given) && initialGrid == old(initialGrid)
      ensures forall k :: 0 <= k < 81 ==> values[k] == if given[k] then old(values)[k] else 0
      ensures conflicts == ConflictCells(values)
      ensures moves == old(moves) && hints == old(hints) && difficulty == old(difficulty) && selected == old(selected)
    {
      values := ClearInputs(values, given);
      var _ := ValidateGrid();
    }

    /**
     * resetGrid: back to the locked snapshot when there is one, otherwise
     * clearGrid; then the counters start over.
     */
    method ResetGrid()
      requires Valid()
      modifies this`values, this`given, this`conflicts, this`initialGrid, this`moves, this`hints
      ensures Valid() && initialGrid == old(initialGrid)
      ensures old(initialGrid).Some? ==>
        values == old(initialGrid).value && conflicts == {} &&
        forall k :: 0 <= k < 81 ==> (given[k] <==> values[k] != 0)
      ensures old(initialGrid).None? ==>
        given == old(given) && conflicts == ConflictCells(values) && forall k :: 0 <= k < 81 ==> values[k] == 0
      ensures moves == 0 && hints == 3
    {
      if initialGrid.Some? {
        SetGrid(initialGrid.value, true);
      } else {
        ClearGrid();
      }
      ResetGameStats();
    }

    /** resetGameStats: no moves, three hints. */
    method ResetGameStats()
      modifies this`moves, this`hints
      ensures moves == 0 && hints == 3
    {
      moves := 0;
      hints := 3;
    }

    /** handleCellFocus and handleCellClick: the input becomes the selected cell. */
    method SelectCell(row: int, col: int)
      requires Valid() && InGrid(row, col)
      modifies this`selected
      ensures Valid() && selected == Some((row, col))
    {
      selected := Some((row, col));
    }

    /**
     * handleCellKeydown on the input at (row, col): an arrow key focuses
     * the neighbouring input, clamped to the grid, which becomes the
     * selected cell; any other key does nothing.
     */
    method CellKeyDown(row: int, col: int, key: string)
      requires Valid() && InGrid(row, col)
      modifies this`selected
      ensures Valid()
      ensures selected == if Navigate(row, col, key).Some? then Navigate(row, col, key) else old(selected)
    {
      var next := Navigate(row, col, key);
      if next.Some? {
        SelectCell(next.value.0, next.value.1);
      }
    }

    /**
     * The document keydown listener: with a selected input that is not
     * read-only and a key between "1" and "9" (string comparison), write
     * the key's digit into the input and run handleCellInput.
     */
    method KeyDown(key: string)
      requires Valid()
      modifies this`values, this`moves, this`conflicts
      ensures Valid() && given == old(given) && initialGrid == old(initialGrid)
      ensures forall k :: 0 <= k < 81 && given[k] ==> values[k] == old(values)[k]
      ensures selected.Some? && !given[Idx(selected.value.0, selected.value.1)] && KeyGuard(key) ==>
        values == old(values)[Idx(selected.value.0, selected.value.1) := DigitOf(key[0])] &&
        moves == old(moves) + 1 && conflicts == ConflictCells(values)
      ensures !(selected.Some? && !given[Idx(selected.value.0, selected.value.1)] && KeyGuard(key)) ==>
        values == old(values) && moves == old(moves) && conflicts == old(conflicts)
      ensures hints == old(hints) && difficulty == old(difficulty) && selected == old(selected)
    {
      if selected.Some? && !given[Idx(selected.value.0, selected.value.1)] && KeyGuard(key) {
        KeyGuardDigit(key);
        values := values[Idx(selected.value.0, selected.value.1) := DigitOf(key[0])];
        HandleCellInput(Idx(selected.value.0, selected.value.1));
      }
    }

    /**
     * handleCellInput for the input at grid index k, once its value is in
     * place: a non-empty input counts a move, validates and checks for a
     * solved puzzle.
     */
    method HandleCellInput(k: int)
      requires Valid() && 0 <= k < 81
      modifies this`moves, this`conflicts
      ensures Valid() && values == old(values) && given == old(given) && initialGrid == old(initialGrid)
      ensures values[k] != 0 ==> moves == old(moves) + 1 && conflicts == ConflictCells(values)
      ensures values[k] == 0 ==> moves == old(moves) && conflicts == old(conflicts)
      ensures hints == old(hints) && difficulty == old(difficulty) && selected == old(selected)
    {
      if values[k] != 0 {
        var _ := ValidateGrid();
        moves := moves + 1;
        var _ := IsPuzzleSolved();
      }
    }
  }

  /*
   * The scans of validateGrid. The page toggles the 'conflict' class as it
   * scans; here the marks are gathered in a set that validateGrid then
   * stores: nothing reads the marks while the scans run.
   */

  /**
   * The scans of validateGrid over the grid getGrid read: the marks they
   * leave and the answer.
   */
  method ScanGrid(g: seq<int>) returns (marks: set<Cell>, ok: bool)
    requires |g| == 81
    ensures marks == ConflictCells(g)
    ensures ok <==> NoConflicts(g)
  {
    var lineMarks, lineConflicts := ScanLines(g);
    var allMarks, boxConflicts := ScanBoxes(g, lineMarks);
    ScansMarkConflictCells(g);
    ConflictCellsOnGrid(g);
    NoMarksIffNoConflicts(g);
    NonEmptyUnion(lineMarks, BoxMarks(g, Size));
    marks := allMarks;
    ok := !(lineConflicts || boxConflicts);
  }

  /**
   * The three mark*Conflicts helpers: mark every cell of the unit whose
   * input holds num.
   */
  method MarkConflicts(grid: seq<int>, marks: set<(int, int)>, u: Unit, num: int)
    returns (marks': set<(int, int)>)
    requires |grid| == 81 && ValidUnit(u)
    ensures marks' == marks + CellsWith(grid, u, num)
  {
    marks' := marks;
    for t := 0 to 9
      invariant marks' == marks + CellsWithBefore(grid, u, num, t)
    {
      CellsWithBeforeStep(grid, u, num, t);
      var cell := UnitCell(u, t);
      if grid[Idx(cell.0, cell.1)] == num {
        marks' := marks' + {cell};
      }
    }
    CellsWithBeforeAll(grid, u, num);
  }

  /** The row and column loop of validateGrid. */
  method ScanLines(grid: seq<int>) returns (marks: set<(int, int)>, hasConflicts: bool)
    requires |grid| == 81
    ensures marks == LineMarks(grid, Size)
    ensures hasConflicts <==> marks != {}
  {
    marks, hasConflicts := {}, false;
    for i := 0 to 9
      invariant marks == LineMarks(grid, i)
      invariant hasConflicts <==> marks != {}
    {
      var marked;
      marks, marked := ScanLine(grid, i, marks);
      hasConflicts := hasConflicts || marked;
    }
  }

  /** One turn of the row and column loop of validateGrid: row i and column i side by side. */
  method ScanLine(grid: seq<int>, i: int, marks: set<(int, int)>)
    returns (marks': set<(int, int)>, hasConflicts: bool)
    requires |grid| == 81 && 0 <= i < 9
    ensures marks' == marks + UnitMarks(grid, Row(i), Size) + UnitMarks(grid, Column(i), Size)
    ensures hasConflicts ==> marks' != {}
    ensures !hasConflicts ==> marks' == marks
  {
    var rowNumbers: set<int> := {};
    var colNumbers: set<int> := {};
    ScanStart(grid, Row(i));
    ScanStart(grid, Column(i));
    NothingYet(marks, UnitMarks(grid, Row(i), 0), UnitMarks(grid, Column(i), 0));
    marks', hasConflicts := marks, false;
    var j := 0;
    while j < 9
      invariant 0 <= j <= 9
      invariant rowNumbers == Seen(grid, Row(i), j) && colNumbers == Seen(grid, Column(i), j)
      invariant marks' == marks + UnitMarks(grid, Row(i), j) + UnitMarks(grid, Column(i), j)
      invariant hasConflicts ==> marks' != {}
      invariant !hasConflicts ==> marks' == marks
    {
      ghost var before := marks';
      var markedRow, markedColumn;
      var v := grid[Idx(i, j)];
      rowNumbers, marks', markedRow := ScanCell(grid, Row(i), j, v, rowNumbers, marks');
      ghost var mid := marks';
      var w := grid[Idx(j, i)];
      colNumbers, marks', markedColumn := ScanCell(grid, Column(i), j, w, colNumbers, marks');
      SideBySide(before, mid, marks', marks,
        UnitMarks(grid, Row(i), j), UnitMarks(grid, Row(i), j + 1),
        UnitMarks(grid, Column(i), j), UnitMarks(grid, Column(i), j + 1),
        if markedRow then CellsWith(grid, Row(i), v) else {},
        if markedColumn then CellsWith(grid, Column(i), w) else {});
      hasConflicts := hasConflicts || markedRow || markedColumn;
      j := j + 1;
    }
  }

  /** The box loop of validateGrid. */
  method ScanBoxes(grid: seq<int>, marks: set<(int, int)>) returns (marks': set<(int, int)>, hasConflicts: bool)
    requires |grid| == 81
    ensures marks' == marks + BoxMarks(grid, Size)
    ensures hasConflicts ==> marks' != {}
    ensures !hasConflicts ==> marks' == marks
  {
    marks', hasConflicts := marks, false;
    for box := 0 to 9
      invariant marks' == marks + BoxMarks(grid, box)
      invariant hasConflicts ==> marks' != {}
      invariant !hasConflicts ==> marks' == marks
    {
      ghost var before := marks';
      var marked;
      marks', marked := ScanBox(grid, box, marks');
      Extend(before, marks', marks, BoxMarks(grid, box), BoxMarks(grid, box + 1),
        UnitMarks(grid, Box(box), Size));
      hasConflicts := hasConflicts || marked;
    }
  }

  /** One turn of the box loop of validateGrid: the nine cells of box `box`, line by line. */
  method ScanBox(grid: seq<int>, box: int, marks: set<(int, int)>)
    returns (marks': set<(int, int)>, hasConflicts: bool)
    requires |grid| == 81 && 0 <= box < 9
    ensures marks' == marks + UnitMarks(grid, Box(box), Size)
    ensures hasConflicts ==> marks' != {}
    ensures !hasConflicts ==> marks' == marks
  {
    var boxNumbers: set<int> := {};
    ScanStart(grid, Box(box));
    NothingYet(marks, UnitMarks(grid, Box(box), 0), {});
    marks', hasConflicts := marks, false;
    ghost var t := 0;
    for i := 0 to 3
      invariant t == 3 * i
      invariant boxNumbers == Seen(grid, Box(box), t)
      invariant marks' == marks + UnitMarks(grid, Box(box), t)
      invariant hasConflicts ==> marks' != {}
      invariant !hasConflicts ==> marks' == marks
    {
      for j := 0 to 3
        invariant t == 3 * i + j
        invariant boxNumbers == Seen(grid, Box(box), t)
        invariant marks' == marks + UnitMarks(grid, Box(box), t)
        invariant hasConflicts ==> marks' != {}
        invariant !hasConflicts ==> marks' == marks
      {
        ghost var before := marks';
        // grid[boxRow + i][boxCol + j], the (3i+j)-th cell of the box
        var cell := UnitCell(Box(box), 3 * i + j);
        var num := grid[Idx(cell.0, cell.1)];
        var marked;
        boxNumbers, marks', marked := ScanCell(grid, Box(box), t, num, boxNumbers, marks');
        Extend(before, marks', marks, UnitMarks(grid, Box(box), t), UnitMarks(grid, Box(box), t + 1),
          if marked then CellsWith(grid, Box(box), num) else {});
        hasConflicts := hasConflicts || marked;
        t := t + 1;
      }
    }
  }

  /**
   * One cell of a unit scan in validateGrid: a non-zero digit already seen
   * in the unit marks the unit's cells holding it; a non-zero digit joins
   * the seen set.
   */
  method ScanCell(grid: seq<int>, u: Unit, ghost t: int, num: int, seen: set<int>, marks: set<(int, int)>)
    returns (seen': set<int>, marks': set<(int, int)>, marked: bool)
    requires |grid| == 81 && ValidUnit(u) && 0 <= t < 9
    requires num == UnitValue(grid, u, t) && seen == Seen(grid, u, t)
    ensures seen' == Seen(grid, u, t + 1)
    ensures marked <==> num != 0 && num in seen
    ensures marks' == marks + (if marked then CellsWith(grid, u, num) else {})
    ensures UnitMarks(grid, u, t + 1) == UnitMarks(grid, u, t) + (if marked then CellsWith(grid, u, num) else {})
    ensures marked ==> marks' != {}
  {
    seen', marks', marked := seen, marks, false;
    if num != 0 {
      if num in seen {
        assert UnitCell(u, t) in CellsWith(grid, u, num);
        marks' := MarkConflicts(grid, marks, u, num);
        marked := true;
      }
      seen' := seen + {num};
    }
  }

  /**
   * removeNumbers: empty `count` cells that still hold a digit. The source
   * draws (row, col) with Math.random until it hits a filled cell; the
   * draws that hit an empty cell change nothing, so the model chooses a
   * filled cell directly. The source loops forever when fewer than count
   * cells are filled.
   */
  method RemoveNumbers(grid: array<int>, count: int)
    requires grid.Length == 81 && count <= 81 - Zeros(grid[..])
    modifies grid
    ensures Zeros(grid[..]) == Zeros(old(grid[..])) + (if count < 0 then 0 else count)
    ensures forall k :: 0 <= k < 81 ==> grid[k] == old(grid[k]) || (old(grid[k]) != 0 && grid[k] == 0)
  {
    ghost var entry := grid[..];
    var removed := 0;
    while removed < count
      invariant 0 <= removed && (count < 0 ==> removed == 0) && (count >= 0 ==> removed <= count)
      invariant Zeros(grid[..]) == Zeros(entry) + removed
      invariant forall k :: 0 <= k < 81 ==> grid[k] == entry[k] || (entry[k] != 0 && grid[k] == 0)
      decreases count - removed
    {
      SomeFilledCell(grid[..]);
      var filled :| 0 <= filled < 81 && grid[filled] != 0;
      var row, col := filled / 9, filled % 9;
      IdxSplit(filled);
      ZerosAfterClear(grid[..], Idx(row, col));
      grid[Idx(row, col)] := 0;
      removed := removed + 1;
    }
  }

  /** The empty cells among the first k cells in row-major order, in that order. */
  function EmptyCellsBefore(g: seq<int>, k: int): (cells: seq<Cell>)
    requires |g| == 81 && 0 <= k <= 81
    ensures |cells| <= k
  {
    if k == 0 then []
    else EmptyCellsBefore(g, k - 1) + (if g[k - 1] == 0 then [((k - 1) / 9, (k - 1) % 9)] else [])
  }

  lemma {:induction false} EmptyCellsMeaning(g: seq<int>, k: int, p: Cell)
    requires |g| == 81 && 0 <= k <= 81
    ensures p in EmptyCellsBefore(g, k) <==> Idx(p.0, p.1) < k && g[Idx(p.0, p.1)] == 0
  {
    if k > 0 {
      EmptyCellsMeaning(g, k - 1, p);
      IdxSplit(k - 1);
      IdxInjective(p.0, p.1, (k - 1) / 9, (k - 1) % 9);
    }
  }

  /** The list of empty cells is empty exactly when the grid is full. */
  lemma EmptyCellsComplete(g: seq<int>)
    requires |g| == 81
    ensures |EmptyCellsBefore(g, 81)| == 0 <==> Complete(g)
  {
    if !Complete(g) {
      var k :| 0 <= k < 81 && g[k] == 0;
      IdxSplit(k);
      EmptyCellsMeaning(g, 81, (k / 9, k % 9));
    }
    if Complete(g) && |EmptyCellsBefore(g, 81)| != 0 {
      EmptyCellsMeaning(g, 81, EmptyCellsBefore(g, 81)[0]);
    }
  }

  /** The row and column loop of giveHint that pushes every empty cell. */
  method FindEmptyCells(grid: seq<int>) returns (emptyCells: seq<Cell>)
    requires |grid| == 81
    ensures emptyCells == EmptyCellsBefore(grid, 81)
  {
    emptyCells := [];
    for row := 0 to 9
      invariant emptyCells == EmptyCellsBefore(grid, 9 * row)
    {
      for col := 0 to 9
        invariant emptyCells == EmptyCellsBefore(grid, 9 * row + col)
      {
        IdxSplit(9 * row + col);
        if grid[9 * row + col] == 0 {
          emptyCells := emptyCells + [(row, col)];
        }
      }
    }
  }

  /** Math.floor(rand * n): an index below n. */
  function Pick(rand: real, n: int): (i: int)
    requires 0.0 <= rand < 1.0 && n > 0
    ensures 0 <= i < n
  {
    assert rand * (n as real) < n as real by {
      assert (1.0 - rand) * (n as real) > 0.0;
    }
    (rand * (n as real)).Floor
  }

  /** The cell giveHint picks in grid g for the draw rand. */
  function HintCell(g: seq<int>, rand: real): (p: Cell)
    requires |g| == 81 && 0.0 <= rand < 1.0 && !Complete(g)
    ensures g[Idx(p.0, p.1)] == 0
  {
    EmptyCellsComplete(g);
    var p := EmptyCellsBefore(g, 81)[Pick(rand, |EmptyCellsBefore(g, 81)|)];
    EmptyCellsMeaning(g, 81, p);
    p
  }

  /** JavaScript's a <= b on strings: lexicographic order of the characters. */
  predicate StringAtMost(a: string, b: string)
  {
    if a == [] then true
    else if b == [] then false
    else if a[0] != b[0] then a[0] < b[0]
    else StringAtMost(a[1..], b[1..])
  }

  /** The key test of the keydown listener: event.key >= '1' && event.key <= '9'. */
  predicate KeyGuard(key: string)
  {
    StringAtMost("1", key) && StringAtMost(key, "9")
  }

  /** The digit a character '1'..'9' stands for. */
  function DigitOf(c: char): (d: int)
    requires '1' <= c <= '9'
    ensures 1 <= d <= 9
  {
    (c as int) - ('0' as int)
  }

  /**
   * The key test lets through exactly the one-character keys '1'..'9'
   * among the one-character keys; every key it lets through starts with a
   * digit 1..9.
   */
  lemma KeyGuardDigit(key: string)
    ensures KeyGuard(key) ==> |key| >= 1 && '1' <= key[0] <= '9'
    ensures |key| == 1 ==> (KeyGuard(key) <==> '1' <= key[0] <= '9')
  {
    if |key| == 1 {
      assert StringAtMost("1", key) <==> '1' <= key[0] by {
        if key[0] == '1' {
          assert StringAtMost("1"[1..], key[1..]);
        }
      }
      assert StringAtMost(key, "9") <==> key[0] <= '9' by {
        if key[0] == '9' {
          assert key[1..] == [];
        }
      }
    }
  }

  /** The inputs after the forEach of clearGrid: every input that is not given is empty. */
  method ClearInputs(store: seq<int>, locks: seq<bool>) returns (cells: seq<int>)
    requires |store| == 81 && |locks| == 81
    ensures |cells| == 81
    ensures forall k :: 0 <= k < 81 ==> cells[k] == if locks[k] then store[k] else 0
  {
    var cleared := seq(81, k requires 0 <= k < 81 => if locks[k] then store[k] else 0);
    cells := store;
    OverlayEnds(store, cleared);
    for d := 0 to 81
      invariant cells == Overlay(store, cleared, d)
    {
      var k := DomPos(d);
      OverlayStep(store, cleared, d);
      DomOrderBijection(k, d);
      if !locks[k] {
        cells := cells[k := 0];
      }
    }
  }

  /**
   * The grid generatePuzzle builds before setGrid: solve the all-zero
   * grid (its answer is ignored), then empty `count` cells.
   */
  method MakePuzzle(count: int) returns (grid: array<int>)
    requires 0 <= count <= 81
    ensures fresh(grid) && grid.Length == 81
    ensures Zeros(grid[..]) == count
    ensures forall k :: 0 <= k < 81 ==> grid[k] == 0 || grid[k] == BaseSolution()[k]
  {
    grid := new int[81](_ => 0);
    assert grid[..] == EmptyGrid();
    var _ := Solve(grid);
    EmptyGridSolvable();
    CompleteIffNoZeros(grid[..]);
    RemoveNumbers(grid, count);
  }

  /**
   * The part of giveHint that works on the grid getGrid read: collect the
   * empty cells, pick one with rand, solve a deep copy and read the digit
   * of the solution there. None when there is no empty cell or the copy
   * cannot be solved.
   */
  method FindHint(grid: seq<int>, rand: real) returns (hint: Option<(Cell, int)>)
    requires |grid| == 81 && 0.0 <= rand < 1.0
    ensures hint.None? <==> Complete(grid) || Search(grid).None?
    ensures hint.Some? ==>
      hint.value.0 == HintCell(grid, rand) && grid[Idx(hint.value.0.0, hint.value.0.1)] == 0 &&
      hint.value.1 == Search(grid).value[Idx(hint.value.0.0, hint.value.0.1)] && 1 <= hint.value.1 <= 9
  {
    var emptyCells := FindEmptyCells(grid);
    EmptyCellsComplete(grid);
    if |emptyCells| == 0 {
      return None;
    }
    var randomCell := emptyCells[Pick(rand, |emptyCells|)];
    EmptyCellsMeaning(grid, 81, randomCell);
    var tempGrid := new int[81](k requires 0 <= k < 81 => grid[k]);
    assert tempGrid[..] == grid;
    var solved := Solve(tempGrid);
    if !solved {
      return None;
    }
    SearchCompletes(grid);
    var k := Idx(randomCell.0, randomCell.1);
    hint := Some((randomCell, tempGrid[k]));
  }
}
