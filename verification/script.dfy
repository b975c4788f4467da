/**
 * The earlier page, script.js: its own isValid with one combined loop, the
 * same backtracking solve, and a board whose inputs are read and written by
 * position in document order.
 *
 * script.js appends the inputs box by box (nine boxes of nine inputs) but
 * getGrid and setGrid treat input i * 9 + j as row i, column j. The grid
 * the solver sees is therefore the inputs in document order: its row i is
 * the box shown at position i, and its box b is the row shown at height b,
 * while its column c is no unit of the page at all. The model keeps this as
 * written; the lemmas at the end of the module state it.
 */
module Script {
  import opened Grid
  import opened Layout
  import opened Checker
  import Solver

  /**
   * The box cell the i-th turn of the single loop of isValid reads:
   * (3 * floor(row / 3) + floor(i / 3), 3 * floor(col / 3) + i % 3).
   */
  function LoopBoxCell(row: int, col: int, i: int): (pos: (int, int))
    requires InGrid(row, col) && 0 <= i < 9
    ensures InGrid(pos.0, pos.1)
  {
    (3 * Band(row) + Band(i), 3 * Band(col) + (i - 3 * Band(i)))
  }

  /** Turn i of the loop reads the i-th cell of the box of (row, col). */
  lemma LoopBoxCellInBox(row: int, col: int, i: int)
    requires InGrid(row, col) && 0 <= i < 9
    ensures LoopBoxCell(row, col, i) == UnitCell(Box(BoxOf(row, col)), i)
  {
    BandOfBox(row, col);
  }

  lemma BandOfBox(row: int, col: int)
    requires InGrid(row, col)
    ensures Band(BoxOf(row, col)) == Band(row) && BoxOf(row, col) - 3 * Band(BoxOf(row, col)) == Band(col)
  {
  }

  /** Turn t of the loop meets num in the row, the column or the box. */
  predicate LoopMeets(g: seq<int>, row: int, col: int, num: int, t: int)
    requires |g| == 81 && InGrid(row, col) && 0 <= t < 9
  {
    g[Idx(row, t)] == num || g[Idx(t, col)] == num ||
    g[Idx(LoopBoxCell(row, col, t).0, LoopBoxCell(row, col, t).1)] == num
  }

  /** Turns i, i+1, .., 8 of the single loop: true when none of them meets num. */
  function LoopFree(g: seq<int>, row: int, col: int, num: int, i: int): (free: bool)
    requires |g| == 81 && InGrid(row, col) && 0 <= i <= 9
    ensures free <==> forall t :: i <= t < 9 ==> !LoopMeets(g, row, col, num, t)
    decreases 9 - i
  {
    if i == 9 then true
    else if g[Idx(row, i)] == num || g[Idx(i, col)] == num then
      assert LoopMeets(g, row, col, num, i);
      false
    else
      var (boxRow, boxCol) := LoopBoxCell(row, col, i);
      if g[Idx(boxRow, boxCol)] == num then
        assert LoopMeets(g, row, col, num, i);
        false
      else LoopFree(g, row, col, num, i + 1)
  }

  /**
   * The nine turns of the single loop visit the row, the column and the
   * box of (row, col), so the loop finds num exactly when it occurs in one
   * of the three units.
   */
  lemma LoopScanMeaning(g: seq<int>, row: int, col: int, num: int)
    requires |g| == 81 && InGrid(row, col)
    ensures LoopFree(g, row, col, num, 0) <==> !OccursInUnits(g, row, col, num)
  {
    if OccursInUnits(g, row, col, num) {
      var r, c :| InGrid(r, c) && SameUnit(row, col, r, c) && g[Idx(r, c)] == num;
      OccurrenceMet(g, row, col, num, r, c);
    }
    if !LoopFree(g, row, col, num, 0) {
      var t :| 0 <= t < 9 && LoopMeets(g, row, col, num, t);
      MeetingOccurs(g, row, col, num, t);
    }
  }

  /** A cell of the row, the column or the box holding num is read by some turn of the loop. */
  lemma OccurrenceMet(g: seq<int>, row: int, col: int, num: int, r: int, c: int)
    requires |g| == 81 && InGrid(row, col) && InGrid(r, c) && SameUnit(row, col, r, c) && g[Idx(r, c)] == num
    ensures exists t :: 0 <= t < 9 && LoopMeets(g, row, col, num, t)
  {
    if r == row {
      assert LoopMeets(g, row, col, num, c);
    } else if c == col {
      assert LoopMeets(g, row, col, num, r);
    } else {
      UnitCellOnto(Box(BoxOf(row, col)), r, c);
      var t :| 0 <= t < 9 && UnitCell(Box(BoxOf(row, col)), t) == (r, c);
      LoopBoxCellInBox(row, col, t);
      assert LoopMeets(g, row, col, num, t);
    }
  }

  /** Every cell a turn of the loop reads lies in the row, the column or the box of (row, col). */
  lemma MeetingOccurs(g: seq<int>, row: int, col: int, num: int, t: int)
    requires |g| == 81 && InGrid(row, col) && 0 <= t < 9 && LoopMeets(g, row, col, num, t)
    ensures OccursInUnits(g, row, col, num)
  {
    var (r, c) := LoopBoxCell(row, col, t);
    BandOfBox(row, col);
    if g[Idx(row, t)] == num {
      assert SameUnit(row, col, row, t);
    } else if g[Idx(t, col)] == num {
      assert SameUnit(row, col, t, col);
    } else {
      assert SameUnit(row, col, r, c);
    }
  }

  /** isValid of script.js: true exactly when num is in none of the three units. */
  function ScriptIsValid(g: seq<int>, row: int, col: int, num: int): (ok: bool)
    requires |g| == 81 && InGrid(row, col)
    ensures ok <==> !OccursInUnits(g, row, col, num)
  {
    LoopScanMeaning(g, row, col, num);
    LoopFree(g, row, col, num, 0)
  }

  /** The one combined loop answers what the three loops of sudoku.js answer. */
  lemma ScriptIsValidAgrees(g: seq<int>, row: int, col: int, num: int)
    requires |g| == 81 && InGrid(row, col)
    ensures ScriptIsValid(g, row, col, num) == IsValid(g, row, col, num)
  {
  }

  /**
   * solve of script.js, the same search as sudoku.js around its own
   * isValid: on success the grid holds what Search computes, on failure it
   * is as it was.
   */
  method Solve(g: array<int>) returns (solved: bool)
    requires g.Length == 81
    modifies g
    ensures solved <==> Solver.Search(old(g[..])).Some?
    ensures solved ==> g[..] == Solver.Search(old(g[..])).value
    ensures !solved ==> g[..] == old(g[..])
    decreases Zeros(g[..]), 2
  {
    ghost var entry := g[..];
    for row := 0 to 9
      invariant g[..] == entry
      invariant forall k :: 0 <= k < 9 * row ==> entry[k] != 0
    {
      for col := 0 to 9
        invariant g[..] == entry
        invariant forall k :: 0 <= k < 9 * row + col ==> entry[k] != 0
      {
        if g[Idx(row, col)] == 0 {
          Solver.SearchAtFirstEmpty(entry, row, col);
          solved := TryDigitsAt(g, row, col);
          return;
        }
      }
    }
    assert Solver.FirstEmpty(entry) == 81;
    return true;
  }

  /** The digit loop of solve at the empty cell (row, col). */
  method TryDigitsAt(g: array<int>, row: int, col: int) returns (solved: bool)
    requires g.Length == 81 && InGrid(row, col) && g[Idx(row, col)] == 0
    modifies g
    ensures solved <==> Solver.TryDigits(old(g[..]), row, col, 1).Some?
    ensures solved ==> g[..] == Solver.TryDigits(old(g[..]), row, col, 1).value
    ensures !solved ==> g[..] == old(g[..])
    decreases Zeros(g[..]), 1
  {
    ghost var entry := g[..];
    var num := 1;
    while num <= 9
      invariant 1 <= num <= 10
      invariant g[..] == entry
      invariant Solver.TryDigits(entry, row, col, 1) == Solver.TryDigits(entry, row, col, num)
    {
      Solver.TryDigitsStep(entry, row, col, num);
      solved := TryDigit(g, row, col, num);
      if solved {
        assert g[..] == Solver.TryDigits(entry, row, col, num).value;
        return;
      }
      num := num + 1;
    }
    return false;
  }

  /** One turn of the digit loop: place num when isValid accepts it, recurse, undo on failure. */
  method TryDigit(g: array<int>, row: int, col: int, num: int) returns (solved: bool)
    requires g.Length == 81 && InGrid(row, col) && g[Idx(row, col)] == 0 && 1 <= num <= 9
    modifies g
    ensures solved <==> Solver.Allowed(old(g[..]), row, col, num) && Solver.Search(old(g[..])[Idx(row, col) := num]).Some?
    ensures solved ==> g[..] == Solver.Search(old(g[..])[Idx(row, col) := num]).value
    ensures !solved ==> g[..] == old(g[..])
    decreases Zeros(g[..]), 0
  {
    ghost var entry := g[..];
    var k := Idx(row, col);
    solved := false;
    if ScriptIsValid(g[..], row, col, num) {
      g[k] := num;
      ZerosAfterFill(entry, k, num);
      solved := Solve(g);
      if !solved {
        g[k] := 0;
        assert g[..] == entry;
      }
    }
  }
}
