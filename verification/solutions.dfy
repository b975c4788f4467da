/**
 * What a successful solve leaves behind, and why generatePuzzle can rely on
 * it. generatePuzzle ignores the answer of solve on the all-zero grid; a
 * fixed full grid free of conflicts shows that this search succeeds, so the
 * grid it then thins out is full.
 */
module Solutions {
  import opened Grid
  import opened Solver

  /** Digit of the fixed full grid at (row, col): rows shifted by 3 inside a band, by 1 across bands. */
  function PatternDigit(row: int, col: int): (d: int)
    requires InGrid(row, col)
    ensures 1 <= d <= 9
  {
    var x := Shift(row) + col;
    (if x < 9 then x else x - 9) + 1
  }

  function Shift(row: int): (s: int)
    requires 0 <= row < 9
    ensures 0 <= s < 9
  {
    3 * (row - 3 * Band(row)) + Band(row)
  }

  function Pattern(): (p: seq<int>)
    ensures |p| == 81
  {
    seq(81, k requires 0 <= k < 81 => PatternDigit(k / 9, k % 9))
  }

  lemma PatternPeersDiffer(r1: int, c1: int, r2: int, c2: int)
    requires Peers(r1, c1, r2, c2)
    ensures PatternDigit(r1, c1) != PatternDigit(r2, c2)
  {
  }

  lemma PatternSolved()
    ensures Solved(Pattern())
  {
    var p := Pattern();
    forall r1, c1, r2, c2 | Peers(r1, c1, r2, c2) && p[Idx(r1, c1)] != 0
      ensures p[Idx(r1, c1)] != p[Idx(r2, c2)]
    {
      assert Idx(r1, c1) / 9 == r1 && Idx(r1, c1) % 9 == c1;
      assert Idx(r2, c2) / 9 == r2 && Idx(r2, c2) % 9 == c2;
      PatternPeersDiffer(r1, c1, r2, c2);
    }
  }

  function EmptyGrid(): (g: seq<int>)
    ensures |g| == 81 && forall k :: 0 <= k < 81 ==> g[k] == 0
  {
    seq(81, _ => 0)
  }

  lemma EmptyGridSolvable()
    ensures Search(EmptyGrid()).Some?
    ensures Solved(Search(EmptyGrid()).value)
  {
    var e := EmptyGrid();
    PatternSolved();
    assert Completes(e, Pattern());
    SearchIffSolvable(e);
  }
  /** A grid that some conflict-free grid completes is itself free of conflicts. */
  lemma NoConflictsOfCompletion(g: seq<int>, h: seq<int>)
    requires Completes(g, h) && NoConflicts(h)
    ensures NoConflicts(g)
  {
    forall r1, c1, r2, c2 | Peers(r1, c1, r2, c2) && g[Idx(r1, c1)] != 0
      ensures g[Idx(r1, c1)] != g[Idx(r2, c2)]
    {
      assert h[Idx(r1, c1)] != h[Idx(r2, c2)];
    }
  }

  /**
   * The full grid generatePuzzle thins out: what solve leaves in the
   * all-zero grid. Every puzzle the game generates derives from it.
   */
  ghost function BaseSolution(): (s: seq<int>)
    ensures Solved(s)
  {
    EmptyGridSolvable();
    Search(EmptyGrid()).value
  }

  /** A grid that agrees with the base solution wherever it is not empty can be solved. */
  lemma PuzzleSolvable(p: seq<int>)
    requires |p| == 81
    requires forall k :: 0 <= k < 81 ==> p[k] == 0 || p[k] == BaseSolution()[k]
    ensures Search(p).Some?
  {
    var b := BaseSolution();
    assert Completes(p, b);
    SearchFindsCompletion(p, b);
  }

  /**
   * Filling an empty cell with the digit a successful search puts there
   * keeps the grid free of conflicts and solvable.
   */
  lemma HintKeepsSolvable(g: seq<int>, k: int)
    requires |g| == 81 && NoConflicts(g) && Search(g).Some? && 0 <= k < 81 && g[k] == 0
    ensures NoConflicts(g[k := Search(g).value[k]])
    ensures Search(g[k := Search(g).value[k]]).Some?
  {
    var h := Search(g).value;
    SearchIffSolvable(g);
    var g' := g[k := h[k]];
    assert Completes(g', h);
    NoConflictsOfCompletion(g', h);
    SearchFindsCompletion(g', h);
  }

  /**
   * A successful solve of a grid of digits free of conflicts gives a solved
   * grid.
   */
  lemma SearchSolves(g: seq<int>)
    requires |g| == 81 && NoConflicts(g) && Digits(g)
    ensures Search(g).Some? ==> Solved(Search(g).value)
  {
    SearchIffSolvable(g);
    if Search(g).Some? {
      CompletesIsSolvedCandidate(g, Search(g).value);
    }
  }

  /** In a solved grid every row, column and box holds each digit 1..9 exactly once. */
  lemma SolvedUnitHoldsEachDigitOnce(g: seq<int>, u: Unit)
    requires Solved(g) && ValidUnit(u)
    ensures forall t1, t2 :: 0 <= t1 < t2 < 9 ==> UnitValues(g, u)[t1] != UnitValues(g, u)[t2]
    ensures forall d :: 1 <= d <= 9 ==> d in UnitValues(g, u)
  {
    forall t1, t2 | 0 <= t1 < t2 < 9
      ensures UnitValue(g, u, t1) != UnitValue(g, u, t2)
    {
      var (r1, c1) := UnitCell(u, t1);
      var (r2, c2) := UnitCell(u, t2);
      UnitCellInjective(u, t1, t2);
      SameUnitIffCommonUnit(r1, c1, r2, c2);
      assert Peers(r1, c1, r2, c2);
      assert g[Idx(r1, c1)] != 0;
    }
    var s := UnitValues(g, u);
    forall t | 0 <= t < 9
      ensures 1 <= s[t] <= 9
    {
      var (r, c) := UnitCell(u, t);
      assert 0 <= Idx(r, c) < 81;
    }
    forall d | 1 <= d <= 9
      ensures d in s
    {
      Pigeonhole(s, d);
    }
  }

  lemma {:induction false} DistinctCard(s: seq<int>)
    requires forall i, j :: 0 <= i < j < |s| ==> s[i] != s[j]
    ensures |(set x | x in s)| == |s|
  {
    if s != [] {
      var t := s[1..];
      DistinctCard(t);
      assert (set x | x in s) == (set x | x in t) + {s[0]};
      assert s[0] !in t;
    }
  }

  lemma {:induction false} CardBound(S: set<int>, n: nat)
    requires forall x :: x in S ==> 1 <= x <= n
    ensures |S| <= n
  {
    if n > 0 {
      CardBound(S - {n}, n - 1);
    } else {
      assert forall x :: x !in S;
      assert S == {};
    }
  }

  lemma {:induction false} CardBoundMissing(S: set<int>, n: nat, d: int)
    requires 1 <= d <= n
    requires forall x :: x in S ==> 1 <= x <= n && x != d
    ensures |S| < n
  {
    if n == d {
      CardBound(S, n - 1);
    } else {
      CardBoundMissing(S - {n}, n - 1, d);
    }
  }

  /** Nine distinct digits 1..9 include every digit. */
  lemma Pigeonhole(s: seq<int>, d: int)
    requires |s| == 9 && 1 <= d <= 9
    requires forall i :: 0 <= i < 9 ==> 1 <= s[i] <= 9
    requires forall i, j :: 0 <= i < j < 9 ==> s[i] != s[j]
    ensures d in s
  {
    DistinctCard(s);
    if d !in s {
      CardBoundMissing(set x | x in s, 9, d);
    }
  }
}
