/** Changes to the player grid: a player's move writes one cell, and a hint
    copies the solution value into the first unfilled cell in row-major
    order. */
module Hints {
  import opened Grids
  import Puzzle

  /** Cell (i', j') comes before cell (i, j) in row-major order. */
  predicate Before(i': int, j': int, i: int, j: int)
  {
    i' < i || (i' == i && j' < j)
  }

  /** The first unfilled cell of row `r` at or after column `from`. */
  function FirstUnfilledIn(r: seq<int>, from: nat): (j: Option<nat>)
    requires from <= |r|
    ensures j.Some? ==> from <= j.value < |r| && r[j.value] == Unfilled
    ensures j.Some? ==> forall k :: from <= k < j.value ==> r[k] != Unfilled
    ensures j.None? ==> forall k :: from <= k < |r| ==> r[k] != Unfilled
    decreases |r| - from
  {
    if from == |r| then None
    else if r[from] == Unfilled then Some(from)
    else FirstUnfilledIn(r, from + 1)
  }

  /** The first unfilled cell in row-major order among rows `row` onwards. */
  function FirstUnfilledFrom(g: seq<seq<int>>, row: nat): (p: Option<(nat, nat)>)
    requires row <= |g|
    ensures p.Some? ==> row <= p.value.0 < |g| && p.value.1 < |g[p.value.0]|
    ensures p.Some? ==> g[p.value.0][p.value.1] == Unfilled
    ensures p.Some? ==> forall i, j :: row <= i < |g| && 0 <= j < |g[i]| && Before(i, j, p.value.0, p.value.1) ==> g[i][j] != Unfilled
    ensures p.None? ==> forall i, j :: row <= i < |g| && 0 <= j < |g[i]| ==> g[i][j] != Unfilled
    decreases |g| - row
  {
    if row == |g| then None
    else match FirstUnfilledIn(g[row], 0)
      case Some(j) => Some((row, j))
      case None => FirstUnfilledFrom(g, row + 1)
  }

  /** The cell a hint reveals: the first unfilled one in row-major order. */
  function FirstUnfilled(g: seq<seq<int>>): Option<(nat, nat)>
  {
    FirstUnfilledFrom(g, 0)
  }

  /** No cell of `g` is unfilled. */
  predicate IsFull(g: seq<seq<int>>)
  {
    forall i, j :: 0 <= i < |g| && 0 <= j < |g[i]| ==> g[i][j] != Unfilled
  }

  /** `s` has a cell wherever `g` has one. */
  predicate Covers(s: seq<seq<int>>, g: seq<seq<int>>)
  {
    |g| <= |s| && forall i :: 0 <= i < |g| ==> |g[i]| <= |s[i]|
  }

  /** `g` with cell (x, y) set to `v`. */
  function Place(g: seq<seq<int>>, x: nat, y: nat, v: int): (h: seq<seq<int>>)
    requires x < |g| && y < |g[x]|
    ensures SameShape(h, g)
  {
    g[x := g[x][y := v]]
  }

  /** The player grid after a hint. */
  function Hint(g: seq<seq<int>>, s: seq<seq<int>>): (h: seq<seq<int>>)
    requires Covers(s, g)
    ensures SameShape(h, g)
  {
    match FirstUnfilled(g)
    case None => g
    case Some((i, j)) => Place(g, i, j, s[i][j])
  }

  /** The player grid after `k` hints in a row. */
  function AfterHints(g: seq<seq<int>>, s: seq<seq<int>>, k: nat): (h: seq<seq<int>>)
    requires Covers(s, g)
    ensures Covers(s, h)
    decreases k
  {
    if k == 0 then g else AfterHints(Hint(g, s), s, k - 1)
  }

  /** A player's move: row `x`, column `y` gets `value`. */
  method Move(grid: array2<int>, x: nat, y: nat, value: int)
    requires x < grid.Length0 && y < grid.Length1
    modifies grid
    ensures Cells(grid) == Place(old(Cells(grid)), x, y, value)
  {
    ghost var before := Cells(grid);
    grid[x, y] := value;
    CellsAfterWrite(grid, before, x, y, value);
  }

  /** The hint provider: scans rows top to bottom and each row left to
      right, fills the first unfilled cell from the solution, and stops. */
  method GiveHint(grid: array2<int>, solution: seq<seq<int>>)
    requires grid.Length0 <= |solution|
    requires forall i :: 0 <= i < grid.Length0 ==> grid.Length1 <= |solution[i]|
    modifies grid
    ensures Covers(solution, old(Cells(grid)))
    ensures Cells(grid) == Hint(old(Cells(grid)), solution)
  {
    ghost var before := Cells(grid);
    var i := 0;
    while i < grid.Length0
      invariant 0 <= i <= grid.Length0
      invariant Cells(grid) == before
      invariant FirstUnfilled(before) == FirstUnfilledFrom(before, i)
    {
      var j := 0;
      while j < grid.Length1
        invariant 0 <= j <= grid.Length1
        invariant Cells(grid) == before
        invariant FirstUnfilledIn(before[i], 0) == FirstUnfilledIn(before[i], j)
      {
        if grid[i, j] == Unfilled {
          grid[i, j] := solution[i][j];
          CellsAfterWrite(grid, before, i, j, solution[i][j]);
          return;
        }
        j := j + 1;
      }
      i := i + 1;
    }
  }

  /** After writing `v` at (x, y), the array's cells are the old ones with
      that single cell replaced. */
  lemma CellsAfterWrite(a: array2<int>, before: seq<seq<int>>, x: nat, y: nat, v: int)
    requires x < a.Length0 && y < a.Length1
    requires |before| == a.Length0 && IsRectangular(before, a.Length1)
    requires a[x, y] == v
    requires forall i, j :: 0 <= i < a.Length0 && 0 <= j < a.Length1 && (i != x || j != y) ==> a[i, j] == before[i][j]
    ensures Cells(a) == Place(before, x, y, v)
  {
    var after := Cells(a);
    forall i | 0 <= i < a.Length0 ensures after[i] == Place(before, x, y, v)[i] {
    }
  }

  /** No cell before (i, j) in row-major order is unfilled. */
  predicate NoUnfilledBefore(g: seq<seq<int>>, i: int, j: int)
  {
    forall i', j' :: 0 <= i' < |g| && 0 <= j' < |g[i']| && Before(i', j', i, j) ==> g[i'][j'] != Unfilled
  }

  /** The cell a hint picks is exactly the unfilled cell with no unfilled
      cell before it in row-major order. */
  lemma FirstUnfilledExactly(g: seq<seq<int>>, i: nat, j: nat)
    ensures FirstUnfilled(g) == Some((i, j)) <==>
      (i < |g| && j < |g[i]| && g[i][j] == Unfilled && NoUnfilledBefore(g, i, j))
  {
  }

  /** A hint finds nothing to reveal exactly when the grid is full. */
  lemma FirstUnfilledNoneIffFull(g: seq<seq<int>>)
    ensures FirstUnfilled(g).None? <==> IsFull(g)
  {
  }

  /** A hint on a full grid changes nothing, so repeating it is a no-op. */
  lemma HintOnFullGrid(g: seq<seq<int>>, s: seq<seq<int>>)
    requires Covers(s, g) && IsFull(g)
    ensures Hint(g, s) == g
    ensures Hint(Hint(g, s), s) == g
  {
  }

  /** A hint changes exactly one cell of a grid that is not full: the
      unfilled cell with no unfilled cell before it takes the solution's
      value, and every other cell keeps its own. */
  lemma HintChangesOnlyFirstUnfilled(g: seq<seq<int>>, s: seq<seq<int>>, a: nat, b: nat)
    requires Covers(s, g) && a < |g| && b < |g[a]|
    ensures Hint(g, s)[a][b] ==
      if g[a][b] == Unfilled && NoUnfilledBefore(g, a, b) then s[a][b] else g[a][b]
  {
  }

  /** Hints come in strict row-major order: after a hint reveals a solution
      value, the next unfilled cell, if any, lies after the one revealed. */
  lemma HintOrder(g: seq<seq<int>>, s: seq<seq<int>>, i: nat, j: nat)
    requires Covers(s, g) && FirstUnfilled(g) == Some((i, j)) && s[i][j] != Unfilled
    ensures FirstUnfilled(Hint(g, s)).None? ||
      Before(i, j, FirstUnfilled(Hint(g, s)).value.0, FirstUnfilled(Hint(g, s)).value.1)
  {
  }

  /** The number of unfilled cells in a row. */
  function CountIn(r: seq<int>): nat
  {
    if |r| == 0 then 0 else (if r[0] == Unfilled then 1 else 0) + CountIn(r[1..])
  }

  /** The number of unfilled cells in a grid. */
  function CountUnfilled(g: seq<seq<int>>): nat
  {
    if |g| == 0 then 0 else CountIn(g[0]) + CountUnfilled(g[1..])
  }

  lemma {:induction false} CountInZero(r: seq<int>)
    ensures CountIn(r) == 0 <==> forall k :: 0 <= k < |r| ==> r[k] != Unfilled
  {
    if |r| > 0 {
      CountInZero(r[1..]);
      assert forall k :: 1 <= k < |r| ==> r[k] == r[1..][k - 1];
    }
  }

  /** A grid has no unfilled cell to count exactly when it is full. */
  lemma {:induction false} CountUnfilledZero(g: seq<seq<int>>)
    ensures CountUnfilled(g) == 0 <==> IsFull(g)
  {
    if |g| > 0 {
      CountInZero(g[0]);
      CountUnfilledZero(g[1..]);
      assert forall i :: 1 <= i < |g| ==> g[i] == g[1..][i - 1];
    }
  }

  lemma {:induction false} CountInFill(r: seq<int>, y: nat, v: int)
    requires y < |r| && r[y] == Unfilled && v != Unfilled
    ensures CountIn(r[y := v]) + 1 == CountIn(r)
  {
    if y == 0 {
      assert r[y := v][1..] == r[1..];
    } else {
      assert r[y := v][1..] == r[1..][y - 1 := v];
      CountInFill(r[1..], y - 1, v);
    }
  }

  /** Filling one unfilled cell with a value leaves one unfilled cell fewer. */
  lemma {:induction false} CountUnfilledFill(g: seq<seq<int>>, x: nat, y: nat, v: int)
    requires x < |g| && y < |g[x]| && g[x][y] == Unfilled && v != Unfilled
    ensures CountUnfilled(Place(g, x, y, v)) + 1 == CountUnfilled(g)
  {
    if x == 0 {
      assert Place(g, x, y, v)[1..] == g[1..];
      CountInFill(g[0], y, v);
    } else {
      assert Place(g, x, y, v)[1..] == Place(g[1..], x - 1, y, v);
      CountUnfilledFill(g[1..], x - 1, y, v);
    }
  }

  /** Every cell of the player grid is unfilled or holds the solution's
      value: what a player who only makes correct moves keeps. */
  predicate Agrees(g: seq<seq<int>>, s: seq<seq<int>>)
  {
    SameShape(g, s) &&
    forall i, j :: 0 <= i < |g| && 0 <= j < |g[i]| ==> g[i][j] == Unfilled || g[i][j] == s[i][j]
  }

  /** Taking as many hints as there are unfilled cells turns a grid that
      agrees with a full solution into that solution. */
  lemma {:induction false} HintsComplete(g: seq<seq<int>>, s: seq<seq<int>>)
    requires Agrees(g, s) && IsFull(s)
    ensures AfterHints(g, s, CountUnfilled(g)) == s
    decreases CountUnfilled(g)
  {
    CountUnfilledZero(g);
    if CountUnfilled(g) == 0 {
      forall i | 0 <= i < |g| ensures g[i] == s[i] { }
    } else {
      FirstUnfilledNoneIffFull(g);
      var (i, j) := FirstUnfilled(g).value;
      var h := Hint(g, s);
      CountUnfilledFill(g, i, j, s[i][j]);
      HintsComplete(h, s);
    }
  }

  /** The player grid a session starts with: n x n, every cell unfilled. */
  function NewPlayerGrid(n: nat): (g: seq<seq<int>>)
    ensures |g| == n && IsSquare(g)
    ensures forall i, j :: 0 <= i < n && 0 <= j < n ==> g[i][j] == Unfilled
  {
    seq(n, _ => seq(n, _ => Unfilled))
  }

  lemma {:induction false} CountInAllUnfilled(n: nat)
    ensures CountIn(seq(n, _ => Unfilled)) == n
  {
    if n > 0 {
      assert seq(n, _ => Unfilled)[1..] == seq(n - 1, _ => Unfilled);
      CountInAllUnfilled(n - 1);
    }
  }

  lemma {:induction false} CountUnfilledRows(m: nat, n: nat)
    ensures CountUnfilled(seq(m, _ => seq(n, _ => Unfilled))) == m * n
  {
    if m > 0 {
      assert seq(m, _ => seq(n, _ => Unfilled))[1..] == seq(m - 1, _ => seq(n, _ => Unfilled));
      CountUnfilledRows(m - 1, n);
      CountInAllUnfilled(n);
      assert m * n == (m - 1) * n + n;
    }
  }

  /** The starting player grid has all n * n of its cells unfilled. */
  lemma NewPlayerGridCount(n: nat)
    ensures CountUnfilled(NewPlayerGrid(n)) == n * n
  {
    CountUnfilledRows(n, n);
  }

  /** Hints alone turn the starting player grid into one that the validator
      accepts against the targets derived from a full solution, after exactly
      as many hints as the grid has cells. */
  lemma HintsAloneSolve(s: seq<seq<int>>)
    requires IsSquare(s) && |s| > 0 && IsFull(s)
    ensures CountUnfilled(NewPlayerGrid(|s|)) == |s| * |s|
    ensures var done := AfterHints(NewPlayerGrid(|s|), s, |s| * |s|);
      Puzzle.WellShaped(done, RowSums(s), ColSums(s, |s|)) &&
      Puzzle.Satisfies(done, RowSums(s), ColSums(s, |s|))
  {
    NewPlayerGridCount(|s|);
    HintsComplete(NewPlayerGrid(|s|), s);
    Puzzle.SolutionSatisfiesItsSums(s);
  }

  /** Every cell is unfilled or a legal value in [0, maxValue]. */
  predicate Legal(g: seq<seq<int>>, maxValue: int)
  {
    forall i, j :: 0 <= i < |g| && 0 <= j < |g[i]| ==> g[i][j] == Unfilled || 0 <= g[i][j] <= maxValue
  }

  /** Neither a hint from a legal solution nor a move of a legal value can
      put an illegal value into the player grid. */
  lemma ChangesKeepLegal(g: seq<seq<int>>, s: seq<seq<int>>, maxValue: int, x: nat, y: nat, v: int)
    requires Covers(s, g) && Legal(g, maxValue) && Legal(s, maxValue)
    requires x < |g| && y < |g[x]| && 0 <= v <= maxValue
    ensures Legal(Hint(g, s), maxValue)
    ensures Legal(Place(g, x, y, v), maxValue)
  {
  }
}
