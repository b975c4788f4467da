/**
 * The constraint check of sudoku.js (isValid): may `num` go at (row, col)?
 * It scans the row, then the column, then the 3x3 box, and answers false at
 * the first cell holding `num`. The target cell itself is scanned too.
 */
module Checker {
  import opened Grid

  /** A cell of the same row, the same column or the same box holds num. */
  ghost predicate OccursInUnits(g: seq<int>, row: int, col: int, num: int)
    requires |g| == 81
  {
    exists r, c :: InGrid(r, c) && SameUnit(row, col, r, c) && g[Idx(r, c)] == num
  }

  /** The row scan from column i on: true when none of those cells holds num. */
  function RowFree(g: seq<int>, row: int, num: int, i: int): (free: bool)
    requires |g| == 81 && 0 <= row < 9 && 0 <= i <= 9
    ensures free <==> forall c :: i <= c < 9 ==> g[Idx(row, c)] != num
    decreases 9 - i
  {
    if i == 9 then true
    else if g[Idx(row, i)] == num then false
    else RowFree(g, row, num, i + 1)
  }

  /** The column scan from row i on. */
  function ColumnFree(g: seq<int>, col: int, num: int, i: int): (free: bool)
    requires |g| == 81 && 0 <= col < 9 && 0 <= i <= 9
    ensures free <==> forall r :: i <= r < 9 ==> g[Idx(r, col)] != num
    decreases 9 - i
  {
    if i == 9 then true
    else if g[Idx(i, col)] == num then false
    else ColumnFree(g, col, num, i + 1)
  }

  /** Inner box loop: cells (r, boxCol + j) for j, j+1, .., 2, where r is line i of the box. */
  function BoxLineFree(g: seq<int>, r: int, boxCol: int, num: int, j: int): (free: bool)
    requires |g| == 81 && 0 <= r < 9 && 0 <= boxCol <= 6 && 0 <= j <= 3
    ensures free <==> forall c :: boxCol + j <= c < boxCol + 3 ==> g[Idx(r, c)] != num
    decreases 3 - j
  {
    if j == 3 then true
    else if g[Idx(r, boxCol + j)] == num then false
    else BoxLineFree(g, r, boxCol, num, j + 1)
  }

  /** Outer box loop: lines i, i+1, .., 2 of the box at (boxRow, boxCol). */
  function BoxFree(g: seq<int>, boxRow: int, boxCol: int, num: int, i: int): (free: bool)
    requires |g| == 81 && 0 <= boxRow <= 6 && 0 <= boxCol <= 6 && 0 <= i <= 3
    ensures free <==> forall r, c :: boxRow + i <= r < boxRow + 3 && boxCol <= c < boxCol + 3 ==> g[Idx(r, c)] != num
    decreases 3 - i
  {
    if i == 3 then true
    else BoxLineFree(g, boxRow + i, boxCol, num, 0) && BoxFree(g, boxRow, boxCol, num, i + 1)
  }

  /**
   * isValid: true exactly when num occurs nowhere in the row, the column or
   * the box of (row, col), the cell (row, col) itself included.
   */
  function IsValid(g: seq<int>, row: int, col: int, num: int): (ok: bool)
    requires |g| == 81 && InGrid(row, col)
    ensures ok <==> !OccursInUnits(g, row, col, num)
  {
    // Math.floor(row / 3) * 3 and Math.floor(col / 3) * 3 (Grid.BandIsDivision)
    var boxRow := 3 * Band(row);
    var boxCol := 3 * Band(col);
    ScansMeaning(g, row, col, num);
    RowFree(g, row, num, 0) && ColumnFree(g, col, num, 0) && BoxFree(g, boxRow, boxCol, num, 0)
  }

  /** The three scans find nothing exactly when no cell of the three units holds num. */
  lemma ScansMeaning(g: seq<int>, row: int, col: int, num: int)
    requires |g| == 81 && InGrid(row, col)
    ensures RowFree(g, row, num, 0) && ColumnFree(g, col, num, 0) && BoxFree(g, 3 * Band(row), 3 * Band(col), num, 0) <==>
      !OccursInUnits(g, row, col, num)
  {
    ScansFindOccurrence(g, row, col, num);
    ScansCoverUnits(g, row, col, num);
  }

  /** When the three scans find nothing, no cell of the three units holds num. */
  lemma ScansCoverUnits(g: seq<int>, row: int, col: int, num: int)
    requires |g| == 81 && InGrid(row, col)
    ensures RowFree(g, row, num, 0) && ColumnFree(g, col, num, 0) && BoxFree(g, 3 * Band(row), 3 * Band(col), num, 0) ==>
      !OccursInUnits(g, row, col, num)
  {
    if RowFree(g, row, num, 0) && ColumnFree(g, col, num, 0) && BoxFree(g, 3 * Band(row), 3 * Band(col), num, 0) {
      forall r, c | InGrid(r, c) && SameUnit(row, col, r, c)
        ensures g[Idx(r, c)] != num
      {
        if r != row && c != col {
          SameBand(row, r);
          SameBand(col, c);
        }
      }
    }
  }

  /** When one of the three scans finds num, a cell of the three units holds it. */
  lemma ScansFindOccurrence(g: seq<int>, row: int, col: int, num: int)
    requires |g| == 81 && InGrid(row, col)
    ensures !(RowFree(g, row, num, 0) && ColumnFree(g, col, num, 0) && BoxFree(g, 3 * Band(row), 3 * Band(col), num, 0)) ==>
      OccursInUnits(g, row, col, num)
  {
    var boxRow, boxCol := 3 * Band(row), 3 * Band(col);
    if !RowFree(g, row, num, 0) {
      var c :| 0 <= c < 9 && g[Idx(row, c)] == num;
      assert InGrid(row, c) && SameUnit(row, col, row, c);
    } else if !ColumnFree(g, col, num, 0) {
      var r :| 0 <= r < 9 && g[Idx(r, col)] == num;
      assert InGrid(r, col) && SameUnit(row, col, r, col);
    } else if !BoxFree(g, boxRow, boxCol, num, 0) {
      var r, c :| boxRow <= r < boxRow + 3 && boxCol <= c < boxCol + 3 && g[Idx(r, c)] == num;
      SameBand(row, r);
      SameBand(col, c);
      assert InGrid(r, c) && SameUnit(row, col, r, c);
    }
  }

  /** The box scan of isValid covers exactly the indices in the band of i. */
  lemma SameBand(i: int, j: int)
    requires 0 <= i < 9 && 0 <= j < 9
    ensures Band(i) == Band(j) <==> 3 * Band(i) <= j < 3 * Band(i) + 3
  {
  }
}
