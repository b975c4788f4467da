/**
 * Where the 81 inputs of the page sit (sudoku.js, createGrid and
 * handleCellKeydown).
 *
 * createGrid appends nine box elements, each holding nine inputs, and tags
 * the cell-th input of the box-th box with a row and a column. The page's
 * inputs are therefore in "document order" box by box, while the game reads
 * and writes them through their row and column tags.
 */
module Layout {
  import opened Grid

  /**
   * Row and column tagged on the cell-th input of the box-th box: the
   * cell-th cell of box `box`, boxes and their cells both numbered line by
   * line.
   */
  function BoxCellToRowCol(box: int, cell: int): (pos: (int, int))
    requires 0 <= box < 9 && 0 <= cell < 9
    ensures InGrid(pos.0, pos.1) && BoxOf(pos.0, pos.1) == box
  {
    UnitCell(Box(box), cell)
  }

  /**
   * The map is the arithmetic of createGrid: row floor(box / 3) * 3 +
   * floor(cell / 3), column (box % 3) * 3 + cell % 3.
   */
  lemma BoxCellArithmetic(box: int, cell: int)
    requires 0 <= box < 9 && 0 <= cell < 9
    ensures BoxCellToRowCol(box, cell) == (box / 3 * 3 + cell / 3, box % 3 * 3 + cell % 3)
  {
    BandIsDivision(box);
    BandIsDivision(cell);
  }

  /**
   * The map is its own inverse: applied to the row and column it gives back
   * the box and the position inside the box.
   */
  lemma BoxCellRoundTrip(box: int, cell: int)
    requires 0 <= box < 9 && 0 <= cell < 9
    ensures BoxCellToRowCol(BoxCellToRowCol(box, cell).0, BoxCellToRowCol(box, cell).1) == (box, cell)
  {
  }

  /** Every cell of the grid is tagged on exactly one input. */
  lemma BoxCellBijection()
    ensures forall b1, t1, b2, t2 ::
      (0 <= b1 < 9 && 0 <= t1 < 9 && 0 <= b2 < 9 && 0 <= t2 < 9 &&
       BoxCellToRowCol(b1, t1) == BoxCellToRowCol(b2, t2)) ==> b1 == b2 && t1 == t2
    ensures forall r, c :: InGrid(r, c) ==>
      exists b, t :: 0 <= b < 9 && 0 <= t < 9 && BoxCellToRowCol(b, t) == (r, c)
  {
    forall b1, t1, b2, t2 |
      0 <= b1 < 9 && 0 <= t1 < 9 && 0 <= b2 < 9 && 0 <= t2 < 9 &&
      BoxCellToRowCol(b1, t1) == BoxCellToRowCol(b2, t2)
      ensures b1 == b2 && t1 == t2
    {
      BoxCellRoundTrip(b1, t1);
      BoxCellRoundTrip(b2, t2);
    }
    forall r, c | InGrid(r, c)
      ensures exists b, t :: 0 <= b < 9 && 0 <= t < 9 && BoxCellToRowCol(b, t) == (r, c)
    {
      var (b, t) := BoxCellToRowCol(r, c);
      BoxCellRoundTrip(r, c);
      assert BoxCellToRowCol(b, t) == (r, c);
    }
  }

  /** Grid index of the d-th input in document order. */
  function DomPos(d: int): (k: int)
    requires 0 <= d < 81
    ensures 0 <= k < 81
  {
    var pos := BoxCellToRowCol(d / 9, d % 9);
    Idx(pos.0, pos.1)
  }

  /** Document position of the input tagged with the cell at grid index k. */
  function DomIndex(k: int): (d: int)
    requires 0 <= k < 81
    ensures 0 <= d < 81
  {
    var place := BoxCellToRowCol(k / 9, k % 9);
    9 * place.0 + place.1
  }

  /** Document order and grid order are two numberings of the same 81 inputs. */
  lemma DomOrderBijection(k: int, d: int)
    requires 0 <= k < 81 && 0 <= d < 81
    ensures DomIndex(DomPos(d)) == d
    ensures DomPos(DomIndex(k)) == k
    ensures DomIndex(k) == d <==> DomPos(d) == k
  {
    IdxSplit(DomPos(d));
    IdxSplit(k);
    BoxCellRoundTrip(d / 9, d % 9);
    BoxCellRoundTrip(k / 9, k % 9);
    var (r, c) := BoxCellToRowCol(d / 9, d % 9);
    assert DomPos(d) / 9 == r && DomPos(d) % 9 == c;
    var (b, t) := BoxCellToRowCol(k / 9, k % 9);
    assert DomIndex(k) / 9 == b && DomIndex(k) % 9 == t;
  }

  /** Visiting input d in document order visits grid index DomPos(d) and no other. */
  lemma DomVisit(d: int)
    requires 0 <= d < 81
    ensures forall k :: 0 <= k < 81 ==> (DomIndex(k) == d <==> k == DomPos(d))
  {
    forall k | 0 <= k < 81
      ensures DomIndex(k) == d <==> k == DomPos(d)
    {
      DomOrderBijection(k, d);
    }
  }

  /**
   * The store a after a forEach over the inputs has copied b into the first
   * d of them in document order.
   */
  ghost function Overlay<T>(a: seq<T>, b: seq<T>, d: int): (s: seq<T>)
    requires |a| == 81 && |b| == 81
    ensures |s| == 81
  {
    seq(81, k requires 0 <= k < 81 => if DomIndex(k) < d then b[k] else a[k])
  }

  lemma OverlayStep<T>(a: seq<T>, b: seq<T>, d: int)
    requires |a| == 81 && |b| == 81 && 0 <= d < 81
    ensures Overlay(a, b, d + 1) == Overlay(a, b, d)[DomPos(d) := b[DomPos(d)]]
  {
    DomVisit(d);
  }

  lemma OverlayEnds<T>(a: seq<T>, b: seq<T>)
    requires |a| == 81 && |b| == 81
    ensures Overlay(a, b, 0) == a && Overlay(a, b, 81) == b
  {
  }

  /** The marks of a set not yet reached by a forEach over the first d inputs. */
  ghost function Unvisited(marks: set<(int, int)>, d: int): set<(int, int)>
  {
    set p | p in marks && InGrid(p.0, p.1) && d <= DomIndex(Idx(p.0, p.1))
  }

  lemma UnvisitedStep(marks: set<(int, int)>, d: int)
    requires 0 <= d < 81
    ensures Unvisited(marks, d + 1) == Unvisited(marks, d) - {(DomPos(d) / 9, DomPos(d) % 9)}
  {
    DomVisit(d);
    var k := DomPos(d);
    IdxSplit(k);
    forall p | p in Unvisited(marks, d) && p != (k / 9, k % 9)
      ensures p in Unvisited(marks, d + 1)
    {
      IdxInjective(p.0, p.1, k / 9, k % 9);
    }
  }

  lemma UnvisitedEnds(marks: set<(int, int)>)
    requires forall p :: p in marks ==> InGrid(p.0, p.1)
    ensures Unvisited(marks, 0) == marks && Unvisited(marks, 81) == {}
  {
  }

  /** Row and column of a grid index. */
  lemma IdxSplit(k: int)
    requires 0 <= k < 81
    ensures InGrid(k / 9, k % 9) && Idx(k / 9, k % 9) == k
  {
  }

  /**
   * The arrow-key move of handleCellKeydown: one step up, down, left or
   * right, clamped to the grid; None for every other key (the handler
   * returns without doing anything).
   */
  function Navigate(row: int, col: int, key: string): (next: Option<(int, int)>)
    ensures next.Some? <==> key == "ArrowUp" || key == "ArrowDown" || key == "ArrowLeft" || key == "ArrowRight"
    ensures next.Some? && InGrid(row, col) ==> InGrid(next.value.0, next.value.1)
    ensures next.Some? && InGrid(row, col) ==>
      (next.value.0 == row && -1 <= next.value.1 - col <= 1) ||
      (next.value.1 == col && -1 <= next.value.0 - row <= 1)
    ensures key == "ArrowUp" && InGrid(row, col) ==> next == Some((if row == 0 then 0 else row - 1, col))
    ensures key == "ArrowDown" && InGrid(row, col) ==> next == Some((if row == 8 then 8 else row + 1, col))
    ensures key == "ArrowLeft" && InGrid(row, col) ==> next == Some((row, if col == 0 then 0 else col - 1))
    ensures key == "ArrowRight" && InGrid(row, col) ==> next == Some((row, if col == 8 then 8 else col + 1))
  {
    if key == "ArrowUp" then Some((Max(0, row - 1), col))
    else if key == "ArrowDown" then Some((Min(8, row + 1), col))
    else if key == "ArrowLeft" then Some((row, Max(0, col - 1)))
    else if key == "ArrowRight" then Some((row, Min(8, col + 1)))
    else None
  }

  function Max(a: int, b: int): int { if a < b then b else a }

  function Min(a: int, b: int): int { if a < b then a else b }
}
