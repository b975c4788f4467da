/**
 * The backtracking solver of sudoku.js (solve).
 *
 * Search is the search as a function of the grid it starts from: find the
 * first empty cell in row-major order, try 1..9 in ascending order, keep the
 * first digit that passes isValid and whose recursive search succeeds. Solve
 * is the in-place method of the source, proved to compute exactly Search and
 * to give the grid back untouched when it fails.
 */
module Solver {
  import opened Grid
  import opened Checker

  /** Index of the first empty cell in row-major order; |g| when there is none. */
  function FirstEmpty(g: seq<int>): (e: int)
    ensures 0 <= e <= |g|
    ensures forall j :: 0 <= j < e ==> g[j] != 0
    ensures e < |g| ==> g[e] == 0
  {
    if g == [] then 0
    else if g[0] == 0 then 0
    else 1 + FirstEmpty(g[1..])
  }

  /** num is nowhere in the row, the column or the box of (row, col). */
  ghost predicate Allowed(g: seq<int>, row: int, col: int, num: int)
    requires |g| == 81
  {
    !OccursInUnits(g, row, col, num)
  }

  /**
   * solve(grid) as a function: None when the search fails, Some(h) with the
   * grid it leaves behind when it succeeds.
   */
  ghost function Search(g: seq<int>): (res: Option<seq<int>>)
    requires |g| == 81
    ensures res.Some? ==> |res.value| == 81
    decreases Zeros(g), 1
  {
    var e := FirstEmpty(g);
    if e == 81 then Some(g)
    else TryDigits(g, e / 9, e % 9, 1)
  }

  /** The digit loop at the empty cell (row, col): try num, num+1, .., 9. */
  ghost function TryDigits(g: seq<int>, row: int, col: int, num: int): (res: Option<seq<int>>)
    requires |g| == 81 && InGrid(row, col) && g[Idx(row, col)] == 0 && 1 <= num <= 10
    ensures res.Some? ==> |res.value| == 81
    decreases Zeros(g), 0, 10 - num
  {
    if num == 10 then None
    else if Allowed(g, row, col, num) then
      ZerosAfterFill(g, Idx(row, col), num);
      var sub := Search(g[Idx(row, col) := num]);
      if sub.Some? then sub else TryDigits(g, row, col, num + 1)
    else TryDigits(g, row, col, num + 1)
  }

  /**
   * A successful search fills every empty cell with a digit 1..9 and keeps
   * every filled cell as it was. On a grid with no empty cell it succeeds at
   * once and changes nothing.
   */
  lemma {:induction false} SearchCompletes(g: seq<int>)
    requires |g| == 81
    ensures Search(g).Some? ==> Completes(g, Search(g).value)
    ensures Complete(g) ==> Search(g) == Some(g)
    decreases Zeros(g), 1
  {
    var e := FirstEmpty(g);
    if e < 81 {
      TryDigitsCompletes(g, e / 9, e % 9, 1);
    }
  }

  lemma {:induction false} TryDigitsCompletes(g: seq<int>, row: int, col: int, num: int)
    requires |g| == 81 && InGrid(row, col) && g[Idx(row, col)] == 0 && 1 <= num <= 10
    ensures TryDigits(g, row, col, num).Some? ==> Completes(g, TryDigits(g, row, col, num).value)
    decreases Zeros(g), 0, 10 - num
  {
    if num < 10 {
      if Allowed(g, row, col, num) {
        ZerosAfterFill(g, Idx(row, col), num);
        SearchCompletes(g[Idx(row, col) := num]);
      }
      TryDigitsCompletes(g, row, col, num + 1);
    }
  }

  /** A successful search started on a grid free of conflicts ends on a grid free of conflicts. */
  lemma {:induction false} SearchKeepsNoConflicts(g: seq<int>)
    requires |g| == 81 && NoConflicts(g)
    ensures Search(g).Some? ==> NoConflicts(Search(g).value)
    decreases Zeros(g), 1
  {
    var e := FirstEmpty(g);
    if e < 81 {
      TryDigitsKeepsNoConflicts(g, e / 9, e % 9, 1);
    }
  }

  lemma {:induction false} TryDigitsKeepsNoConflicts(g: seq<int>, row: int, col: int, num: int)
    requires |g| == 81 && InGrid(row, col) && g[Idx(row, col)] == 0 && 1 <= num <= 10
    requires NoConflicts(g)
    ensures TryDigits(g, row, col, num).Some? ==> NoConflicts(TryDigits(g, row, col, num).value)
    decreases Zeros(g), 0, 10 - num
  {
    if num < 10 {
      if Allowed(g, row, col, num) {
        ZerosAfterFill(g, Idx(row, col), num);
        PlaceKeepsNoConflicts(g, row, col, num);
        SearchKeepsNoConflicts(g[Idx(row, col) := num]);
      }
      TryDigitsKeepsNoConflicts(g, row, col, num + 1);
    }
  }

  /**
   * Placing a digit that isValid accepts into an empty cell of a grid free
   * of conflicts gives a grid free of conflicts.
   */
  lemma PlaceKeepsNoConflicts(g: seq<int>, row: int, col: int, num: int)
    requires |g| == 81 && InGrid(row, col) && g[Idx(row, col)] == 0
    requires Allowed(g, row, col, num)
    ensures NoConflicts(g) ==> NoConflicts(g[Idx(row, col) := num])
  {
    if NoConflicts(g) {
      var h := g[Idx(row, col) := num];
      forall r1, c1, r2, c2 | Peers(r1, c1, r2, c2) && h[Idx(r1, c1)] != 0
        ensures h[Idx(r1, c1)] != h[Idx(r2, c2)]
      {
        IdxInjective(r1, c1, row, col);
        IdxInjective(r2, c2, row, col);
        if r1 == row && c1 == col {
          assert SameUnit(row, col, r2, c2);
        } else if r2 == row && c2 == col {
          assert SameUnit(row, col, r1, c1);
        }
      }
    }
  }

  /**
   * Completeness: when some grid free of conflicts completes g, the search
   * finds a completion. It need not find that one: it returns the first in
   * its own order.
   */
  lemma {:induction false} SearchFindsCompletion(g: seq<int>, h: seq<int>)
    requires |g| == 81 && Completes(g, h) && NoConflicts(h)
    ensures Search(g).Some?
    decreases Zeros(g), 1
  {
    var e := FirstEmpty(g);
    if e < 81 {
      TryDigitsFindsCompletion(g, h, e / 9, e % 9, 1);
    }
  }

  lemma {:induction false} TryDigitsFindsCompletion(g: seq<int>, h: seq<int>, row: int, col: int, num: int)
    requires |g| == 81 && InGrid(row, col) && g[Idx(row, col)] == 0 && Completes(g, h) && NoConflicts(h)
    requires 1 <= num <= h[Idx(row, col)]
    ensures TryDigits(g, row, col, num).Some?
    decreases Zeros(g), 0, 10 - num
  {
    var k := Idx(row, col);
    ZerosAfterFill(g, k, num);
    if num == h[k] {
      CompletionAllowed(g, h, row, col);
      assert Completes(g[k := num], h);
      SearchFindsCompletion(g[k := num], h);
    } else {
      TryDigitsFindsCompletion(g, h, row, col, num + 1);
    }
  }

  /** The digit a conflict-free completion puts in an empty cell passes isValid. */
  lemma CompletionAllowed(g: seq<int>, h: seq<int>, row: int, col: int)
    requires |g| == 81 && InGrid(row, col) && g[Idx(row, col)] == 0 && Completes(g, h) && NoConflicts(h)
    ensures Allowed(g, row, col, h[Idx(row, col)])
  {
    var k := Idx(row, col);
    if OccursInUnits(g, row, col, h[k]) {
      var r, c :| InGrid(r, c) && SameUnit(row, col, r, c) && g[Idx(r, c)] == h[k];
      IdxInjective(r, c, row, col);
      assert Peers(row, col, r, c);
      assert false;
    }
  }

  /**
   * On a grid free of conflicts, solve succeeds exactly when the grid can be
   * completed without conflicts; what it leaves behind is then such a
   * completion.
   */
  lemma SearchIffSolvable(g: seq<int>)
    requires |g| == 81 && NoConflicts(g)
    ensures Search(g).Some? <==> exists h :: Completes(g, h) && NoConflicts(h)
    ensures Search(g).Some? ==> Completes(g, Search(g).value) && NoConflicts(Search(g).value)
  {
    SearchCompletes(g);
    SearchKeepsNoConflicts(g);
    if h :| Completes(g, h) && NoConflicts(h) {
      SearchFindsCompletion(g, h);
    }
  }

  /** Search starts its digit loop at the first empty cell in row-major order. */
  lemma SearchAtFirstEmpty(g: seq<int>, row: int, col: int)
    requires |g| == 81 && InGrid(row, col) && g[Idx(row, col)] == 0
    requires forall j :: 0 <= j < Idx(row, col) ==> g[j] != 0
    ensures Search(g) == TryDigits(g, row, col, 1)
  {
    assert FirstEmpty(g) == Idx(row, col);
    assert Idx(row, col) / 9 == row && Idx(row, col) % 9 == col;
  }

  /** One turn of the digit loop, as the in-place solver takes it. */
  lemma TryDigitsStep(g: seq<int>, row: int, col: int, num: int)
    requires |g| == 81 && InGrid(row, col) && g[Idx(row, col)] == 0 && 1 <= num <= 9
    ensures !Allowed(g, row, col, num) ==> TryDigits(g, row, col, num) == TryDigits(g, row, col, num + 1)
    ensures Allowed(g, row, col, num) && Search(g[Idx(row, col) := num]).Some? ==>
      TryDigits(g, row, col, num) == Search(g[Idx(row, col) := num])
    ensures Allowed(g, row, col, num) && Search(g[Idx(row, col) := num]).None? ==>
      TryDigits(g, row, col, num) == TryDigits(g, row, col, num + 1)
  {
  }

  /**
   * The in-place solver: the row and column scan for the first empty cell.
   * On success the grid holds what Search computes; on failure every
   * speculative placement has been reset to 0, so the grid is as it was on
   * entry.
   */
  method Solve(g: array<int>) returns (solved: bool)
    requires g.Length == 81
    modifies g
    ensures solved <==> Search(old(g[..])).Some?
    ensures solved ==> g[..] == Search(old(g[..])).value
    ensures !solved ==> g[..] == old(g[..])
    decreases Zeros(g[..]), 2
  {
    ghost var entry := g[..];
    for row := 0 to 9
      invariant g[..] == entry
      invariant forall k :: 0 <= k < 9 * row ==> entry[k] != 0
    {
      for col := 0 to 9
        invariant g[..] == entry
        invariant forall k :: 0 <= k < 9 * row + col ==> entry[k] != 0
      {
        if g[9 * row + col] == 0 {
          SearchAtFirstEmpty(entry, row, col);
          solved := TryDigitsAt(g, row, col);
          return;
        }
      }
    }
    assert FirstEmpty(entry) == 81;
    return true;
  }

  /**
   * The digit loop of solve at the empty cell (row, col): place each digit
   * isValid accepts, recurse, and put 0 back when the recursion fails.
   */
  method TryDigitsAt(g: array<int>, row: int, col: int) returns (solved: bool)
    requires g.Length == 81 && InGrid(row, col) && g[Idx(row, col)] == 0
    modifies g
    ensures solved <==> TryDigits(old(g[..]), row, col, 1).Some?
    ensures solved ==> g[..] == TryDigits(old(g[..]), row, col, 1).value
    ensures !solved ==> g[..] == old(g[..])
    decreases Zeros(g[..]), 1
  {
    ghost var entry := g[..];
    var num := 1;
    while num <= 9
      invariant 1 <= num <= 10
      invariant g[..] == entry
      invariant TryDigits(entry, row, col, 1) == TryDigits(entry, row, col, num)
    {
      TryDigitsStep(entry, row, col, num);
      solved := TryDigit(g, row, col, num);
      if solved {
        assert g[..] == TryDigits(entry, row, col, num).value;
        return;
      }
      num := num + 1;
    }
    return false;
  }

  /**
   * One turn of the digit loop: when isValid accepts num, place it and
   * recurse; put 0 back when the recursion fails.
   */
  method TryDigit(g: array<int>, row: int, col: int, num: int) returns (solved: bool)
    requires g.Length == 81 && InGrid(row, col) && g[Idx(row, col)] == 0 && 1 <= num <= 9
    modifies g
    ensures solved <==> Allowed(old(g[..]), row, col, num) && Search(old(g[..])[Idx(row, col) := num]).Some?
    ensures solved ==> g[..] == Search(old(g[..])[Idx(row, col) := num]).value
    ensures !solved ==> g[..] == old(g[..])
    decreases Zeros(g[..]), 0
  {
    ghost var entry := g[..];
    var k := 9 * row + col;
    solved := false;
    if IsValid(g[..], row, col, num) {
      g[k] := num;
      ZerosAfterFill(entry, k, num);
      solved := Solve(g);
      if !solved {
        g[k] := 0;
        assert g[..] == entry;
      }
    }
  }
}
