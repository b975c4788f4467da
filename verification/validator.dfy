/**
 * What validateGrid of sudoku.js marks as a conflict.
 *
 * validateGrid scans each row and each column (interleaved, one index at a
 * time), then each box, remembering the digits already seen in the unit.
 * When a digit shows up a second time, every cell of that unit holding it
 * is marked. The marked cells are therefore exactly the filled cells that
 * share a row, a column or a box with another cell holding the same digit.
 */
module Validator {
  import opened Grid

  /** A filled cell with a peer holding the same digit. */
  ghost predicate HasTwin(g: seq<int>, r: int, c: int)
    requires |g| == 81 && InGrid(r, c)
  {
    g[Idx(r, c)] != 0 &&
    exists r2, c2 :: Peers(r, c, r2, c2) && g[Idx(r2, c2)] == g[Idx(r, c)]
  }

  /** The cells that end up marked 'conflict'. */
  ghost function ConflictCells(g: seq<int>): set<(int, int)>
    requires |g| == 81
  {
    set r, c | 0 <= r < 9 && 0 <= c < 9 && HasTwin(g, r, c) :: (r, c)
  }

  lemma ConflictCellsOnGrid(g: seq<int>)
    requires |g| == 81
    ensures forall p :: p in ConflictCells(g) ==> InGrid(p.0, p.1)
  {
  }

  /** No cell is marked exactly when no unit repeats a digit. */
  lemma NoMarksIffNoConflicts(g: seq<int>)
    requires |g| == 81
    ensures ConflictCells(g) == {} <==> NoConflicts(g)
  {
    if !NoConflicts(g) {
      var r1, c1, r2, c2 :| Peers(r1, c1, r2, c2) && g[Idx(r1, c1)] != 0 && g[Idx(r1, c1)] == g[Idx(r2, c2)];
      assert HasTwin(g, r1, c1);
      assert (r1, c1) in ConflictCells(g);
    }
    if ConflictCells(g) != {} {
      var p :| p in ConflictCells(g);
      var r2, c2 :| Peers(p.0, p.1, r2, c2) && g[Idx(r2, c2)] == g[Idx(p.0, p.1)];
    }
  }

  /** The scan of unit u has met digit v twice among its first j cells. */
  ghost predicate RepeatsBefore(g: seq<int>, u: Unit, j: int, v: int)
    requires |g| == 81 && ValidUnit(u) && 0 <= j <= 9
  {
    v != 0 && exists t1, t2 :: 0 <= t1 < t2 < j && UnitValue(g, u, t1) == v && UnitValue(g, u, t2) == v
  }

  /** Non-zero digits of the first j cells of unit u: the set the scan keeps. */
  function Seen(g: seq<int>, u: Unit, j: int): set<int>
    requires |g| == 81 && ValidUnit(u) && 0 <= j <= 9
  {
    if j == 0 then {}
    else
      var v := UnitValue(g, u, j - 1);
      Seen(g, u, j - 1) + (if v != 0 then {v} else {})
  }

  /** The seen set holds exactly the non-zero digits met so far. */
  lemma {:induction false} SeenMeaning(g: seq<int>, u: Unit, j: int, v: int)
    requires |g| == 81 && ValidUnit(u) && 0 <= j <= 9
    ensures v in Seen(g, u, j) <==> v != 0 && Met(g, u, j, v)
  {
    if j > 0 {
      SeenMeaning(g, u, j - 1, v);
      MetStep(g, u, j - 1, v);
    }
  }

  /** Digit v occurs among the first j cells of unit u. */
  ghost predicate Met(g: seq<int>, u: Unit, j: int, v: int)
    requires |g| == 81 && ValidUnit(u) && 0 <= j <= 9
  {
    exists t :: 0 <= t < j && UnitValue(g, u, t) == v
  }

  /** One cell further, a digit has been met when it was met before or the new cell holds it. */
  lemma MetStep(g: seq<int>, u: Unit, j: int, v: int)
    requires |g| == 81 && ValidUnit(u) && 0 <= j < 9
    ensures Met(g, u, j + 1, v) <==> Met(g, u, j, v) || UnitValue(g, u, j) == v
  {
    if Met(g, u, j + 1, v) && UnitValue(g, u, j) != v {
      var t :| 0 <= t < j + 1 && UnitValue(g, u, t) == v;
      assert Met(g, u, j, v);
    }
    if UnitValue(g, u, j) == v {
      assert Met(g, u, j + 1, v);
    }
  }

  /** The cells of unit u holding num: what one mark*Conflicts call marks. */
  function CellsWith(g: seq<int>, u: Unit, num: int): set<(int, int)>
    requires |g| == 81
  {
    set r, c | 0 <= r < 9 && 0 <= c < 9 && InUnit(u, r, c) && g[Idx(r, c)] == num :: (r, c)
  }

  /** The cells among the first t of unit u that hold num. */
  ghost function CellsWithBefore(g: seq<int>, u: Unit, num: int, t: int): set<(int, int)>
    requires |g| == 81 && ValidUnit(u) && 0 <= t <= 9
  {
    set t' | 0 <= t' < t && UnitValue(g, u, t') == num :: UnitCell(u, t')
  }

  lemma CellsWithBeforeStep(g: seq<int>, u: Unit, num: int, t: int)
    requires |g| == 81 && ValidUnit(u) && 0 <= t < 9
    ensures CellsWithBefore(g, u, num, t + 1) ==
      CellsWithBefore(g, u, num, t) + (if UnitValue(g, u, t) == num then {UnitCell(u, t)} else {})
  {
  }

  /** Walking a unit cell by cell finds every cell of the unit holding num. */
  lemma CellsWithBeforeAll(g: seq<int>, u: Unit, num: int)
    requires |g| == 81 && ValidUnit(u)
    ensures CellsWithBefore(g, u, num, Size) == CellsWith(g, u, num)
  {
    forall p | p in CellsWith(g, u, num)
      ensures p in CellsWithBefore(g, u, num, Size)
    {
      UnitCellOnto(u, p.0, p.1);
      var t :| 0 <= t < 9 && UnitCell(u, t) == p;
      assert UnitValue(g, u, t) == num;
    }
  }

  /**
   * What the scan of unit u has marked after its first j cells: a non-zero
   * digit already seen marks every cell of the unit holding it.
   */
  ghost function UnitMarks(g: seq<int>, u: Unit, j: int): set<(int, int)>
    requires |g| == 81 && ValidUnit(u) && 0 <= j <= 9
  {
    if j == 0 then {}
    else
      var v := UnitValue(g, u, j - 1);
      UnitMarks(g, u, j - 1) + (if v != 0 && v in Seen(g, u, j - 1) then CellsWith(g, u, v) else {})
  }

  /** Before the scan of a unit starts nothing is seen and nothing marked. */
  lemma ScanStart(g: seq<int>, u: Unit)
    requires |g| == 81 && ValidUnit(u)
    ensures UnitMarks(g, u, 0) == {} && Seen(g, u, 0) == {}
  {
  }

  /** The digits the scan of unit u has met twice, one cell further. */
  lemma RepeatsStep(g: seq<int>, u: Unit, j: int, w: int)
    requires |g| == 81 && ValidUnit(u) && 0 <= j < 9
    ensures RepeatsBefore(g, u, j + 1, w) <==>
      RepeatsBefore(g, u, j, w) || (w == UnitValue(g, u, j) && w != 0 && w in Seen(g, u, j))
  {
    SeenMeaning(g, u, j, w);
    if RepeatsBefore(g, u, j + 1, w) {
      var t1, t2 :| 0 <= t1 < t2 < j + 1 && UnitValue(g, u, t1) == w && UnitValue(g, u, t2) == w;
    }
    if w == UnitValue(g, u, j) && w != 0 && w in Seen(g, u, j) {
      var t1 :| 0 <= t1 < j && UnitValue(g, u, t1) == w;
      assert RepeatsBefore(g, u, j + 1, w);
    }
  }

  /**
   * The marks of a unit scan are exactly the cells of the unit whose digit
   * the scan has met twice: every occurrence of it, the first one included.
   */
  lemma {:induction false} UnitMarksMeaning(g: seq<int>, u: Unit, j: int, p: (int, int))
    requires |g| == 81 && ValidUnit(u) && 0 <= j <= 9
    ensures p in UnitMarks(g, u, j) <==>
      InGrid(p.0, p.1) && InUnit(u, p.0, p.1) && RepeatsBefore(g, u, j, g[Idx(p.0, p.1)])
  {
    if j > 0 {
      UnitMarksMeaning(g, u, j - 1, p);
      UnitMarksStep(g, u, j - 1, p);
      if InGrid(p.0, p.1) {
        RepeatsStep(g, u, j - 1, g[Idx(p.0, p.1)]);
      }
    }
  }

  /** One cell further, the scan adds the cells of the unit holding the digit just met again. */
  lemma UnitMarksStep(g: seq<int>, u: Unit, j: int, p: (int, int))
    requires |g| == 81 && ValidUnit(u) && 0 <= j < 9
    ensures p in UnitMarks(g, u, j + 1) <==>
      || p in UnitMarks(g, u, j)
      || (InGrid(p.0, p.1) && InUnit(u, p.0, p.1) && g[Idx(p.0, p.1)] == UnitValue(g, u, j) &&
          UnitValue(g, u, j) != 0 && UnitValue(g, u, j) in Seen(g, u, j))
  {
    CellsWithMeaning(g, u, UnitValue(g, u, j), p);
  }

  /** A cell is among the cells of unit u holding num exactly when it lies in u and holds num. */
  lemma CellsWithMeaning(g: seq<int>, u: Unit, num: int, p: (int, int))
    requires |g| == 81
    ensures p in CellsWith(g, u, num) <==> InGrid(p.0, p.1) && InUnit(u, p.0, p.1) && g[Idx(p.0, p.1)] == num
  {
    if InGrid(p.0, p.1) && InUnit(u, p.0, p.1) && g[Idx(p.0, p.1)] == num {
      assert (p.0, p.1) in CellsWith(g, u, num);
    }
  }

  /** Marks left by the row and column scans of the first n indices. */
  ghost function LineMarks(g: seq<int>, n: int): set<(int, int)>
    requires |g| == 81 && 0 <= n <= 9
  {
    if n == 0 then {}
    else LineMarks(g, n - 1) + UnitMarks(g, Row(n - 1), Size) + UnitMarks(g, Column(n - 1), Size)
  }

  /** Marks left by the scans of the first n boxes. */
  ghost function BoxMarks(g: seq<int>, n: int): set<(int, int)>
    requires |g| == 81 && 0 <= n <= 9
  {
    if n == 0 then {}
    else BoxMarks(g, n - 1) + UnitMarks(g, Box(n - 1), Size)
  }

  /** A cell marked by the scan of a unit has a peer in that unit holding its digit. */
  lemma UnitMarksAreConflicts(g: seq<int>, u: Unit)
    requires |g| == 81 && ValidUnit(u)
    ensures UnitMarks(g, u, Size) <= ConflictCells(g)
  {
    forall p | p in UnitMarks(g, u, Size)
      ensures p in ConflictCells(g)
    {
      UnitMarksMeaning(g, u, 9, p);
      MarkedCellHasTwin(g, u, p.0, p.1);
    }
  }

  lemma MarkedCellHasTwin(g: seq<int>, u: Unit, r: int, c: int)
    requires |g| == 81 && ValidUnit(u) && InGrid(r, c) && InUnit(u, r, c)
    requires RepeatsBefore(g, u, 9, g[Idx(r, c)])
    ensures HasTwin(g, r, c)
  {
    var v := g[Idx(r, c)];
    var t1, t2 :| 0 <= t1 < t2 < 9 && UnitValue(g, u, t1) == v && UnitValue(g, u, t2) == v;
    UnitCellInjective(u, t1, t2);
    if UnitCell(u, t1) != (r, c) {
      TwinInUnit(g, u, r, c, t1);
    } else {
      TwinInUnit(g, u, r, c, t2);
    }
  }

  /** Another cell of a unit of (r, c) holding the same non-zero digit is a twin. */
  lemma TwinInUnit(g: seq<int>, u: Unit, r: int, c: int, t: int)
    requires |g| == 81 && ValidUnit(u) && InGrid(r, c) && InUnit(u, r, c) && 0 <= t < 9
    requires UnitCell(u, t) != (r, c) && g[Idx(r, c)] != 0 && UnitValue(g, u, t) == g[Idx(r, c)]
    ensures HasTwin(g, r, c)
  {
    var p := UnitCell(u, t);
    SameUnitIffCommonUnit(r, c, p.0, p.1);
    assert Peers(r, c, p.0, p.1);
  }

  /** Two cells of a unit holding the same non-zero digit make the scan meet it twice. */
  lemma MetTwice(g: seq<int>, u: Unit, t1: int, t2: int, v: int)
    requires |g| == 81 && ValidUnit(u) && 0 <= t1 < 9 && 0 <= t2 < 9 && t1 != t2 && v != 0
    requires UnitValue(g, u, t1) == v && UnitValue(g, u, t2) == v
    ensures RepeatsBefore(g, u, 9, v)
  {
    if t2 < t1 {
      assert 0 <= t2 < t1 < 9;
    }
  }

  /** A filled cell with a twin is marked by the scan of a unit holding both. */
  lemma ConflictIsMarked(g: seq<int>, r: int, c: int) returns (u: Unit)
    requires |g| == 81 && InGrid(r, c) && HasTwin(g, r, c)
    ensures ValidUnit(u) && (r, c) in UnitMarks(g, u, Size)
  {
    var v := g[Idx(r, c)];
    var r2, c2 :| Peers(r, c, r2, c2) && g[Idx(r2, c2)] == v;
    SameUnitIffCommonUnit(r, c, r2, c2);
    u :| ValidUnit(u) && InUnit(u, r, c) && InUnit(u, r2, c2);
    UnitCellOnto(u, r, c);
    UnitCellOnto(u, r2, c2);
    var t1 :| 0 <= t1 < 9 && UnitCell(u, t1) == (r, c);
    var t2 :| 0 <= t2 < 9 && UnitCell(u, t2) == (r2, c2);
    assert t1 != t2;
    assert UnitValue(g, u, t1) == v && UnitValue(g, u, t2) == v;
    MetTwice(g, u, t1, t2, v);
    UnitMarksMeaning(g, u, 9, (r, c));
  }

  /** The row and column scans mark only filled cells with a twin. */
  lemma {:induction false} LineMarksSound(g: seq<int>, n: int)
    requires |g| == 81 && 0 <= n <= 9
    ensures LineMarks(g, n) <= ConflictCells(g)
  {
    if n > 0 {
      LineMarksSound(g, n - 1);
      UnitMarksAreConflicts(g, Row(n - 1));
      UnitMarksAreConflicts(g, Column(n - 1));
    }
  }

  /** The marks of the scans of row i and column i survive the later scans. */
  lemma {:induction false} LineMarksKeep(g: seq<int>, n: int, i: int)
    requires |g| == 81 && 0 <= i < n <= 9
    ensures UnitMarks(g, Row(i), Size) <= LineMarks(g, n) && UnitMarks(g, Column(i), Size) <= LineMarks(g, n)
  {
    assert LineMarks(g, n) == LineMarks(g, n - 1) + UnitMarks(g, Row(n - 1), Size) + UnitMarks(g, Column(n - 1), Size);
    if i < n - 1 {
      LineMarksKeep(g, n - 1, i);
    }
  }

  /** The box scans mark only filled cells with a twin. */
  lemma {:induction false} BoxMarksSound(g: seq<int>, n: int)
    requires |g| == 81 && 0 <= n <= 9
    ensures BoxMarks(g, n) <= ConflictCells(g)
  {
    if n > 0 {
      BoxMarksSound(g, n - 1);
      UnitMarksAreConflicts(g, Box(n - 1));
    }
  }

  /** The marks of the scan of box i survive the later scans. */
  lemma {:induction false} BoxMarksKeep(g: seq<int>, n: int, i: int)
    requires |g| == 81 && 0 <= i < n <= 9
    ensures UnitMarks(g, Box(i), Size) <= BoxMarks(g, n)
  {
    assert BoxMarks(g, n) == BoxMarks(g, n - 1) + UnitMarks(g, Box(n - 1), Size);
    if i < n - 1 {
      BoxMarksKeep(g, n - 1, i);
    }
  }

  /**
   * After all 27 scans the marked cells are exactly the filled cells with a
   * peer holding the same digit: every occurrence of a repeated digit is
   * marked, not only the second one.
   */
  lemma ScansMarkConflictCells(g: seq<int>)
    requires |g| == 81
    ensures LineMarks(g, Size) + BoxMarks(g, Size) == ConflictCells(g)
  {
    LineMarksSound(g, Size);
    BoxMarksSound(g, Size);
    forall p | p in ConflictCells(g)
      ensures p in LineMarks(g, Size) + BoxMarks(g, Size)
    {
      ConflictInScans(g, p.0, p.1);
    }
  }

  lemma ConflictInScans(g: seq<int>, r: int, c: int)
    requires |g| == 81 && InGrid(r, c) && HasTwin(g, r, c)
    ensures (r, c) in LineMarks(g, Size) + BoxMarks(g, Size)
  {
    var u := ConflictIsMarked(g, r, c);
    match u
    case Row(i) => LineMarksKeep(g, 9, i);
    case Column(i) => LineMarksKeep(g, 9, i);
    case Box(i) => BoxMarksKeep(g, 9, i);
  }

  /**
   * The row and the column scans run side by side: when each adds its new
   * marks, the marks so far are still the union of the two scans' marks.
   */
  lemma SideBySide(before: set<(int, int)>, mid: set<(int, int)>, after: set<(int, int)>,
                   base: set<(int, int)>, r: set<(int, int)>, r': set<(int, int)>,
                   c: set<(int, int)>, c': set<(int, int)>, a: set<(int, int)>, b: set<(int, int)>)
    requires before == base + r + c && mid == before + a && after == mid + b
    requires r' == r + a && c' == c + b
    ensures after == base + r' + c'
  {
  }

  /** Marks once made stay made. */
  lemma NonEmptyUnion(a: set<(int, int)>, b: set<(int, int)>)
    ensures a != {} ==> a + b != {}
  {
    if a != {} {
      var p :| p in a;
      assert p in a + b;
    }
  }

  /** Scans that have marked nothing leave the marks so far as they are. */
  lemma NothingYet(base: set<(int, int)>, r: set<(int, int)>, c: set<(int, int)>)
    requires r == {} && c == {}
    ensures base == base + r + c && base == base + r
  {
  }

  /** A scan adds its new marks to the marks so far. */
  lemma Extend(before: set<(int, int)>, after: set<(int, int)>, base: set<(int, int)>,
               r: set<(int, int)>, r': set<(int, int)>, a: set<(int, int)>)
    requires before == base + r && after == before + a && r' == r + a
    ensures after == base + r'
  {
  }
}
