/**
 * The page of script.js: inputs appended box by box and read and written
 * by position, so that the grid its solver sees is the inputs in document
 * order. The lemmas at the end state what this does to the rows, columns
 * and boxes the page shows.
 */
module ScriptPage {
  import opened Grid
  import opened Layout
  import opened Checker
  import Solver
  import Script

  /**
   * The page of script.js: the value of each input in document order
   * (0 for an empty input) and its lock (readOnly together with the
   * 'given' class, which script.js always sets and clears together).
   */
  class Board {
    var cells: seq<int>
    var locked: seq<bool>

    ghost predicate Valid()
      reads this
    {
      |cells| == 81 && |locked| == 81 && Digits(cells)
    }

    /** The page as built: 81 empty, editable inputs. */
    constructor ()
      ensures Valid()
      ensures cells == seq(81, _ => 0) && locked == seq(81, _ => false)
    {
      cells := seq(81, _ => 0);
      locked := seq(81, _ => false);
    }

    /** getGrid: row i, column j of the grid is input i * 9 + j. */
    method GetGrid() returns (grid: array<int>)
      requires Valid()
      ensures fresh(grid) && grid.Length == 81 && grid[..] == cells
    {
      grid := new int[81](_ => 0);
      for i := 0 to 9
        invariant forall k :: 0 <= k < 9 * i ==> grid[k] == cells[k]
      {
        for j := 0 to 9
          invariant forall k :: 0 <= k < 9 * i + j ==> grid[k] == cells[k]
        {
          grid[i * 9 + j] := cells[i * 9 + j];
        }
      }
    }

    /**
     * setGrid(grid, lockInitial): input i * 9 + j takes row i, column j of
     * the grid; with lockInitial every non-empty one is locked. No lock is
     * ever released here.
     */
    method SetGrid(grid: seq<int>, lock: bool)
      requires Valid() && |grid| == 81 && Digits(grid)
      modifies this
      ensures Valid() && cells == grid
      ensures forall d :: 0 <= d < 81 ==> (locked[d] <==> old(locked[d]) || (lock && grid[d] != 0))
    {
      var values, locks := cells, locked;
      for i := 0 to 9
        invariant |values| == 81 && |locks| == 81
        invariant forall k :: 0 <= k < 81 ==> values[k] == if k < 9 * i then grid[k] else cells[k]
        invariant forall k :: 0 <= k < 81 ==>
          (locks[k] <==> locked[k] || (k < 9 * i && lock && grid[k] != 0))
        modifies {}
      {
        for j := 0 to 9
          invariant |values| == 81 && |locks| == 81
          invariant forall k :: 0 <= k < 81 ==> values[k] == if k < 9 * i + j then grid[k] else cells[k]
          invariant forall k :: 0 <= k < 81 ==>
            (locks[k] <==> locked[k] || (k < 9 * i + j && lock && grid[k] != 0))
          modifies {}
        {
          var index := i * 9 + j;
          values := values[index := grid[index]];
          if lock && grid[index] != 0 {
            locks := locks[index := true];
          }
        }
      }
      cells, locked := values, locks;
    }

    /** clearGrid: empty every input that is not read-only. */
    method ClearGrid()
      requires Valid()
      modifies this
      ensures Valid() && locked == old(locked)
      ensures forall d :: 0 <= d < 81 ==> cells[d] == if locked[d] then old(cells)[d] else 0
    {
      var values := cells;
      for d := 0 to 81
        invariant |values| == 81
        invariant forall k :: 0 <= k < 81 ==> values[k] == if k < d && !locked[k] then 0 else cells[k]
        modifies {}
      {
        if !locked[d] {
          values := values[d := 0];
        }
      }
      cells := values;
    }

    /** resetGrid: empty every input and release every lock. */
    method ResetGrid()
      requires Valid()
      modifies this
      ensures Valid()
      ensures cells == seq(81, _ => 0) && locked == seq(81, _ => false)
    {
      var values, locks := cells, locked;
      for d := 0 to 81
        invariant |values| == 81 && |locks| == 81
        invariant forall k :: 0 <= k < d ==> values[k] == 0 && !locks[k]
        modifies {}
      {
        values := values[d := 0];
        locks := locks[d := false];
      }
      cells, locked := values, locks;
    }

    /**
     * solveSudoku: solve the grid getGrid reads and write it back, without
     * locking, only when solve succeeds.
     */
    method SolveSudoku() returns (solved: bool)
      requires Valid()
      modifies this
      ensures Valid() && locked == old(locked)
      ensures solved <==> Solver.Search(old(cells)).Some?
      ensures solved ==> cells == Solver.Search(old(cells)).value && Completes(old(cells), cells)
      ensures !solved ==> cells == old(cells)
    {
      ghost var entry := cells;
      var grid := GetGrid();
      solved := Script.Solve(grid);
      if solved {
        Solver.SearchCompletes(entry);
        CompletesIsSolvedCandidate(entry, grid[..]);
        SetGrid(grid[..], false);
      }
    }
  }

  /** The grid as the page shows it, row by row: the cell at (row, col) is input DomIndex(Idx(row, col)). */
  function Shown(cells: seq<int>): (v: seq<int>)
    requires |cells| == 81
    ensures |v| == 81
  {
    seq(81, k requires 0 <= k < 81 => cells[DomIndex(k)])
  }

  /** The inputs in document order of a page showing grid v row by row. */
  function Inputs(v: seq<int>): (cells: seq<int>)
    requires |v| == 81
    ensures |cells| == 81
  {
    seq(81, d requires 0 <= d < 81 => v[DomPos(d)])
  }

  /** Inputs and Shown are inverse: the two are the same page. */
  lemma InputsShown(v: seq<int>, cells: seq<int>)
    requires |v| == 81 && |cells| == 81
    ensures Shown(Inputs(v)) == v
    ensures Inputs(Shown(cells)) == cells
  {
    forall k | 0 <= k < 81
      ensures Inputs(v)[DomIndex(k)] == v[k]
    {
      DomOrderBijection(k, DomIndex(k));
    }
    forall d | 0 <= d < 81
      ensures Shown(cells)[DomPos(d)] == cells[d]
    {
      DomOrderBijection(DomPos(d), d);
    }
  }

  /** Row i of the script's grid is the box shown at position i, cell t for cell t. */
  lemma RowIsShownBox(i: int, t: int)
    requires 0 <= i < 9 && 0 <= t < 9
    ensures DomPos(Idx(UnitCell(Row(i), t).0, UnitCell(Row(i), t).1)) ==
      Idx(UnitCell(Box(i), t).0, UnitCell(Box(i), t).1)
  {
    assert Idx(i, t) / 9 == i && Idx(i, t) % 9 == t;
  }

  lemma BandOfSum(x: int, y: int)
    requires 0 <= x < 3 && 0 <= y < 3
    ensures Band(3 * x + y) == x
  {
  }

  /** Box b of the script's grid is the row shown at height b, cell t at column t. */
  lemma BoxIsShownRow(b: int, t: int)
    requires 0 <= b < 9 && 0 <= t < 9
    ensures DomPos(Idx(UnitCell(Box(b), t).0, UnitCell(Box(b), t).1)) ==
      Idx(UnitCell(Row(b), t).0, UnitCell(Row(b), t).1)
  {
    var (r, c) := UnitCell(Box(b), t);
    assert Idx(r, c) / 9 == r && Idx(r, c) % 9 == c;
    BandOfSum(Band(b), Band(t));
    BandOfSum(b - 3 * Band(b), t - 3 * Band(t));
    assert BoxCellToRowCol(r, c) == (b, t);
  }

  /** A grid shown with the single digit num, at row 0, column 0. */
  function LoneDigit(num: int): (v: seq<int>)
    ensures |v| == 81 && v[0] == num && forall k :: 0 < k < 81 ==> v[k] == 0
  {
    seq(81, k requires 0 <= k < 81 => if k == 0 then num else 0)
  }

  /** The input holding the digit of LoneDigit is the first one; every other input is empty. */
  lemma LoneDigitInput(num: int, d: int)
    requires 1 <= num <= 9 && 0 <= d < 81
    ensures Inputs(LoneDigit(num))[d] == (if d == 0 then num else 0)
  {
    var k := DomPos(d);
    DomOrderBijection(k, d);
    if k == 0 || d == 0 {
      FirstInputIsOrigin(0, 0);
    }
  }

  /** The first input in document order is the cell at row 0, column 0. */
  lemma FirstInputIsOrigin(k: int, d: int)
    requires k == 0 && d == 0
    ensures DomPos(d) == k && DomIndex(k) == d
  {
    assert k / 9 == 0 && k % 9 == 0;
  }

  /**
   * The script's column check misses the columns of the page. With a
   * single digit num shown at row 0, column 0, the script's isValid accepts
   * num at its cell (3, 3): no input of its row, column or box there holds
   * num. That cell is the input shown at row 4, column 0 (ScriptCellShownAt),
   * in the column that already holds num (OriginColumnHolds).
   */
  lemma ScriptAcceptsNextToOrigin(num: int, row: int, col: int)
    requires 1 <= num <= 9 && row == 3 && col == 3
    ensures Script.ScriptIsValid(Inputs(LoneDigit(num)), row, col, num)
  {
    var cells := Inputs(LoneDigit(num));
    if OccursInUnits(cells, row, col, num) {
      var r, c :| InGrid(r, c) && SameUnit(row, col, r, c) && cells[Idx(r, c)] == num;
      LoneDigitInput(num, Idx(r, c));
      assert false;
    }
  }

  /** The script's cell (3, 3) is the input shown at row 4, column 0. */
  lemma ScriptCellShownAt(row: int, col: int)
    requires row == 3 && col == 3
    ensures DomPos(Idx(row, col)) / 9 == 4 && DomPos(Idx(row, col)) % 9 == 0
  {
    var k := Idx(row, col);
    assert k / 9 == 3 && k % 9 == 3;
    var pos := BoxCellToRowCol(k / 9, k % 9);
    assert pos.0 == 4 && pos.1 == 0;
  }

  /** Row 4, column 0 shares column 0 with the digit of LoneDigit. */
  lemma OriginColumnHolds(num: int, row: int, col: int)
    requires 1 <= num <= 9 && row == 4 && col == 0
    ensures OccursInUnits(LoneDigit(num), row, col, num)
  {
    var v := LoneDigit(num);
    assert SameUnit(row, col, 0, 0) && v[Idx(0, 0)] == num;
  }
}
