/**
 * The 9x9 Sudoku grid shared by both versions of the game.
 *
 * A grid is 81 integers stored row by row: cell (row, col) sits at index
 * 9 * row + col, so scanning rows and then columns visits the indices in
 * ascending order. 0 means an empty cell, 1..9 a placed digit.
 */
module Grid {

  datatype Option<T> = None | Some(value: T)

  /**
   * Cells in a unit, and units of each kind. The scans are specified up to
   * Size rather than up to the literal 9 so that the verifier does not
   * unfold them all at once.
   */
  const Size: int := 9

  /** Flat position of cell (row, col). */
  function Idx(row: int, col: int): int
  {
    9 * row + col
  }

  predicate InGrid(row: int, col: int)
  {
    0 <= row < 9 && 0 <= col < 9
  }

  /** The band of a row or column index 0..8: 0, 1 or 2 (the index divided by 3). */
  function Band(n: int): int
  {
    if n < 3 then 0 else if n < 6 then 1 else 2
  }

  /** Band is the division by 3 of the source, on grid indices. */
  lemma BandIsDivision(n: int)
    requires 0 <= n < 9
    ensures Band(n) == n / 3 && n - 3 * Band(n) == n % 3
  {
  }

  /** Index of the 3x3 box holding (row, col), numbered row by row. */
  function BoxOf(row: int, col: int): int
  {
    3 * Band(row) + Band(col)
  }

  /** Two cells share a row, a column or a 3x3 box (every cell shares all three with itself). */
  predicate SameUnit(r1: int, c1: int, r2: int, c2: int)
  {
    r1 == r2 || c1 == c2 || (Band(r1) == Band(r2) && Band(c1) == Band(c2))
  }

  /** Two distinct cells of the grid that must not hold the same digit. */
  predicate Peers(r1: int, c1: int, r2: int, c2: int)
  {
    InGrid(r1, c1) && InGrid(r2, c2) && (r1 != r2 || c1 != c2) && SameUnit(r1, c1, r2, c2)
  }

  /** Every cell holds 0 (empty) or a digit 1..9, as the inputs of the page allow. */
  ghost predicate Digits(g: seq<int>)
  {
    forall k :: 0 <= k < |g| ==> 0 <= g[k] <= 9
  }

  /** Number of empty cells. */
  function Zeros(g: seq<int>): nat
  {
    multiset(g)[0]
  }

  ghost predicate Complete(g: seq<int>)
  {
    forall k :: 0 <= k < |g| ==> g[k] != 0
  }

  /** No row, column or box holds the same non-zero digit twice. */
  ghost predicate NoConflicts(g: seq<int>)
    requires |g| == 81
  {
    forall r1, c1, r2, c2 ::
      Peers(r1, c1, r2, c2) && g[Idx(r1, c1)] != 0 ==> g[Idx(r1, c1)] != g[Idx(r2, c2)]
  }

  /** A full grid obeying the rules: what the game calls solved. */
  ghost predicate Solved(g: seq<int>)
  {
    |g| == 81 && Complete(g) && NoConflicts(g) && Digits(g)
  }

  /**
   * h fills every empty cell of g with a digit 1..9 and keeps every
   * non-empty cell of g as it is.
   */
  ghost predicate Completes(g: seq<int>, h: seq<int>)
  {
    |g| == 81 && |h| == 81 &&
    forall k :: 0 <= k < 81 ==> if g[k] == 0 then 1 <= h[k] <= 9 else h[k] == g[k]
  }

  /** The 27 units of the rules: nine rows, nine columns and nine boxes (boxes numbered row by row). */
  datatype Unit = Row(i: int) | Column(i: int) | Box(i: int)

  predicate ValidUnit(u: Unit)
  {
    0 <= u.i < 9
  }

  predicate InUnit(u: Unit, row: int, col: int)
  {
    match u
    case Row(i) => row == i
    case Column(i) => col == i
    case Box(b) => BoxOf(row, col) == b
  }

  /**
   * The t-th cell of a unit: a row left to right, a column top to bottom, a
   * box line by line (the order of the scans in sudoku.js).
   */
  function UnitCell(u: Unit, t: int): (pos: (int, int))
    requires ValidUnit(u) && 0 <= t < 9
    ensures InGrid(pos.0, pos.1) && InUnit(u, pos.0, pos.1)
  {
    match u
    case Row(i) => (i, t)
    case Column(i) => (t, i)
    case Box(b) =>
      (3 * Band(b) + Band(t), 3 * (b - 3 * Band(b)) + (t - 3 * Band(t)))
  }

  /** Value at the t-th cell of a unit. */
  function UnitValue(g: seq<int>, u: Unit, t: int): int
    requires |g| == 81 && ValidUnit(u) && 0 <= t < 9
  {
    var (r, c) := UnitCell(u, t);
    g[Idx(r, c)]
  }

  /** The nine values of a unit, in the order of UnitCell. */
  function UnitValues(g: seq<int>, u: Unit): (vals: seq<int>)
    requires |g| == 81 && ValidUnit(u)
    ensures |vals| == 9 && forall t :: 0 <= t < 9 ==> vals[t] == UnitValue(g, u, t)
  {
    seq(9, t requires 0 <= t < 9 => UnitValue(g, u, t))
  }

  /** A unit lists each of its cells once. */
  lemma UnitCellInjective(u: Unit, t1: int, t2: int)
    requires ValidUnit(u) && 0 <= t1 < 9 && 0 <= t2 < 9
    ensures UnitCell(u, t1) == UnitCell(u, t2) ==> t1 == t2
  {

  }

  /** A unit lists every cell that belongs to it. */
  lemma UnitCellOnto(u: Unit, row: int, col: int)
    requires ValidUnit(u) && InGrid(row, col) && InUnit(u, row, col)
    ensures exists t :: 0 <= t < 9 && UnitCell(u, t) == (row, col)
  {
    match u
    case Row(_) =>
      assert UnitCell(u, col) == (row, col);
    case Column(_) =>
      assert UnitCell(u, row) == (row, col);
    case Box(b) =>
      var t := 3 * (row - 3 * Band(row)) + (col - 3 * Band(col));
      assert UnitCell(u, t) == (row, col);
  }

  /** Two cells share a row, a column or a box exactly when some unit holds both. */
  lemma SameUnitIffCommonUnit(r1: int, c1: int, r2: int, c2: int)
    requires InGrid(r1, c1) && InGrid(r2, c2)
    ensures SameUnit(r1, c1, r2, c2) <==>
      exists u :: ValidUnit(u) && InUnit(u, r1, c1) && InUnit(u, r2, c2)
  {
    if SameUnit(r1, c1, r2, c2) {
      var u := if r1 == r2 then Row(r1) else if c1 == c2 then Column(c1) else Box(BoxOf(r1, c1));
      assert ValidUnit(u) && InUnit(u, r1, c1) && InUnit(u, r2, c2);
    }
    if u :| ValidUnit(u) && InUnit(u, r1, c1) && InUnit(u, r2, c2) {

    }
  }

  lemma IdxInjective(r1: int, c1: int, r2: int, c2: int)
    requires InGrid(r1, c1) && InGrid(r2, c2)
    ensures Idx(r1, c1) == Idx(r2, c2) <==> r1 == r2 && c1 == c2
  {
  }

  /** Filling an empty cell with a digit leaves one empty cell fewer. */
  lemma ZerosAfterFill(g: seq<int>, k: int, v: int)
    requires 0 <= k < |g| && g[k] == 0 && v != 0
    ensures Zeros(g[k := v]) == Zeros(g) - 1
  {
    assert g == g[..k] + [g[k]] + g[k + 1..];
    assert g[k := v] == g[..k] + [v] + g[k + 1..];
  }

  /** Emptying a filled cell leaves one empty cell more. */
  lemma ZerosAfterClear(g: seq<int>, k: int)
    requires 0 <= k < |g| && g[k] != 0
    ensures Zeros(g[k := 0]) == Zeros(g) + 1
  {
    assert g == g[..k] + [g[k]] + g[k + 1..];
    assert g[k := 0] == g[..k] + [0] + g[k + 1..];
  }

  /** A grid with fewer empty cells than cells has a filled cell. */
  lemma {:induction false} SomeFilledCell(g: seq<int>)
    requires Zeros(g) < |g|
    ensures exists k :: 0 <= k < |g| && g[k] != 0
  {
    if g[0] == 0 {
      assert g == [g[0]] + g[1..];
      SomeFilledCell(g[1..]);
      var k :| 0 <= k < |g[1..]| && g[1..][k] != 0;
      assert g[k + 1] != 0;
    }
  }

  lemma CompleteIffNoZeros(g: seq<int>)
    ensures Complete(g) <==> Zeros(g) == 0
  {
    if !Complete(g) {
      var k :| 0 <= k < |g| && g[k] == 0;
      assert g[k] in multiset(g);
    }
  }

  /** A completion keeps every digit in range and leaves no empty cell. */
  lemma CompletesIsSolvedCandidate(g: seq<int>, h: seq<int>)
    requires Completes(g, h) && Digits(g)
    ensures Complete(h) && Digits(h)
  {
  }
}
