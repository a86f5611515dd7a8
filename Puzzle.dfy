/** The puzzle engine: a random solution, the row and column targets derived
    from it, and the validator run after every move. */
module Puzzle {
  import opened Grids

  /** What the validator needs of its inputs: a grid with a first row, no row
      shorter than that first one, and a target for every row and column. */
  predicate WellShaped(grid: seq<seq<int>>, rowSums: seq<int>, colSums: seq<int>)
  {
    |grid| > 0 && HasWidth(grid, |grid[0]|) && |grid| <= |rowSums| && |grid[0]| <= |colSums|
  }

  /** The grid meets its targets: every row adds up to its row target and
      every column to its column target. Cells are summed as they are, so an
      unfilled cell contributes -1. */
  predicate Satisfies(grid: seq<seq<int>>, rowSums: seq<int>, colSums: seq<int>)
    requires WellShaped(grid, rowSums, colSums)
  {
    (forall i :: 0 <= i < |grid| ==> Sum(grid[i]) == rowSums[i]) &&
    (forall j :: 0 <= j < |grid[0]| ==> Sum(Column(grid, j)) == colSums[j])
  }

  /** The value of cell (i, j) of a generated grid: the draw consumed at that
      position in row-major order, reduced into [0, maxValue]. */
  function Draw(draws: seq<nat>, size: nat, maxValue: int, i: nat, j: nat): (v: int)
    requires 0 <= maxValue && size * size <= |draws|
    requires i < size && j < size
    ensures 0 <= v <= maxValue
  {
    RowMajorInRange(i, j, size);
    draws[i * size + j] % (maxValue + 1)
  }

  /** Position (i, j) of an n x n grid is a valid row-major index. */
  lemma RowMajorInRange(i: nat, j: nat, n: nat)
    requires i < n && j < n
    ensures i * n + j < n * n
  {
    assert i * n <= (n - 1) * n;
  }

  /** Solution generation: fills a size x size grid from successive draws of
      the random source, each reduced into [0, maxValue]. */
  method GenerateGrid(size: nat, maxValue: int, draws: seq<nat>) returns (grid: seq<seq<int>>)
    requires 0 <= maxValue
    requires size * size <= |draws|
    ensures |grid| == size && IsSquare(grid)
    ensures forall i, j :: 0 <= i < size && 0 <= j < size ==> 0 <= grid[i][j] <= maxValue
    ensures forall i, j :: 0 <= i < size && 0 <= j < size ==> grid[i][j] == Draw(draws, size, maxValue, i, j)
  {
    grid := seq(size, _ => seq(size, _ => Unfilled));
    for i := 0 to size
      invariant |grid| == size && IsSquare(grid)
      invariant forall r, c :: 0 <= r < i && 0 <= c < size ==> grid[r][c] == Draw(draws, size, maxValue, r, c)
    {
      for j := 0 to size
        invariant |grid| == size && IsSquare(grid)
        invariant forall r, c :: 0 <= r < i && 0 <= c < size ==> grid[r][c] == Draw(draws, size, maxValue, r, c)
        invariant forall c :: 0 <= c < j ==> grid[i][c] == Draw(draws, size, maxValue, i, c)
      {
        grid := grid[i := grid[i][j := Draw(draws, size, maxValue, i, j)]];
      }
    }
  }

  /** Target derivation: one pass over the first N cells of each of the N
      rows, adding each cell to its row's and its column's running total. */
  method GenerateSums(solution: seq<seq<int>>) returns (rowSums: seq<int>, colSums: seq<int>)
    requires HasWidth(solution, |solution|)
    ensures |rowSums| == |solution|
    ensures forall i :: 0 <= i < |solution| ==> rowSums[i] == Sum(solution[i][..|solution|])
    ensures colSums == ColSums(solution, |solution|)
    ensures IsSquare(solution) ==> rowSums == RowSums(solution)
  {
    var n := |solution|;
    rowSums := seq(n, _ => 0);
    colSums := seq(n, _ => 0);
    for i := 0 to n
      invariant |rowSums| == n && |colSums| == n
      invariant forall r :: 0 <= r < i ==> rowSums[r] == Sum(solution[r][..n])
      invariant forall r :: i <= r < n ==> rowSums[r] == 0
      invariant forall c :: 0 <= c < n ==> colSums[c] == ColumnSumTo(solution, c, i)
    {
      for j := 0 to n
        invariant |rowSums| == n && |colSums| == n
        invariant forall r :: 0 <= r < i ==> rowSums[r] == Sum(solution[r][..n])
        invariant forall r :: i < r < n ==> rowSums[r] == 0
        invariant rowSums[i] == Sum(solution[i][..j])
        invariant forall c :: 0 <= c < j ==> colSums[c] == ColumnSumTo(solution, c, i + 1)
        invariant forall c :: j <= c < n ==> colSums[c] == ColumnSumTo(solution, c, i)
      {
        SumExtend(solution[i], j);
        rowSums := rowSums[i := rowSums[i] + solution[i][j]];
        colSums := colSums[j := colSums[j] + solution[i][j]];
      }
    }
    forall c | 0 <= c < n ensures colSums[c] == Sum(Column(solution, c)) {
      ColumnSumToAll(solution, c);
    }
    if IsSquare(solution) {
      forall r | 0 <= r < n ensures solution[r][..n] == solution[r] { }
    }
  }

  /** The sum of the top `i` cells of column `c`, built one row at a time as
      the derivation's running column totals are. */
  function ColumnSumTo(g: seq<seq<int>>, c: nat, i: nat): int
    requires HasWidth(g, c + 1) && i <= |g|
  {
    if i == 0 then 0 else ColumnSumTo(g, c, i - 1) + g[i - 1][c]
  }

  lemma {:induction false} ColumnSumToPrefix(g: seq<seq<int>>, c: nat, i: nat)
    requires HasWidth(g, c + 1) && i <= |g|
    ensures ColumnSumTo(g, c, i) == Sum(Column(g, c)[..i])
  {
    if i > 0 {
      ColumnSumToPrefix(g, c, i - 1);
      SumExtend(Column(g, c), i - 1);
    }
  }

  lemma ColumnSumToAll(g: seq<seq<int>>, c: nat)
    requires HasWidth(g, c + 1)
    ensures ColumnSumTo(g, c, |g|) == Sum(Column(g, c))
  {
    ColumnSumToPrefix(g, c, |g|);
    assert Column(g, c)[..|g|] == Column(g, c);
  }

  /** Extending a prefix by one element adds that element to its sum. */
  lemma SumExtend(s: seq<int>, k: nat)
    requires k < |s|
    ensures Sum(s[..k + 1]) == Sum(s[..k]) + s[k]
  {
    assert s[..k + 1][..k] == s[..k];
  }

  /** The validator: adds up each row, then each column, and gives up at the
      first total that misses its target. */
  method CheckSolution(grid: seq<seq<int>>, rowSums: seq<int>, colSums: seq<int>) returns (solved: bool)
    requires WellShaped(grid, rowSums, colSums)
    ensures solved <==> Satisfies(grid, rowSums, colSums)
  {
    for i := 0 to |grid|
      invariant forall r :: 0 <= r < i ==> Sum(grid[r]) == rowSums[r]
    {
      var rowSum := 0;
      for j := 0 to |grid[i]|
        invariant rowSum == Sum(grid[i][..j])
      {
        SumExtend(grid[i], j);
        rowSum := rowSum + grid[i][j];
      }
      assert grid[i][..|grid[i]|] == grid[i];
      if rowSum != rowSums[i] {
        return false;
      }
    }
    for j := 0 to |grid[0]|
      invariant forall c :: 0 <= c < j ==> Sum(Column(grid, c)) == colSums[c]
    {
      var colSum := 0;
      for i := 0 to |grid|
        invariant colSum == Sum(Column(grid, j)[..i])
      {
        SumExtend(Column(grid, j), i);
        colSum := colSum + grid[i][j];
      }
      assert Column(grid, j)[..|grid|] == Column(grid, j);
      if colSum != colSums[j] {
        return false;
      }
    }
    return true;
  }

  /** Round trip: a non-empty solution always validates against the targets
      derived from it. */
  lemma SolutionSatisfiesItsSums(solution: seq<seq<int>>)
    requires IsSquare(solution) && |solution| > 0
    ensures WellShaped(solution, RowSums(solution), ColSums(solution, |solution|))
    ensures Satisfies(solution, RowSums(solution), ColSums(solution, |solution|))
  {
  }

  /** Targets that some grid meets agree on the grand total, so a row target
      list and a column target list with different totals can never be met. */
  lemma SatisfiableTargetsAgree(grid: seq<seq<int>>, rowSums: seq<int>, colSums: seq<int>)
    requires WellShaped(grid, rowSums, colSums)
    requires IsRectangular(grid, |grid[0]|) && |rowSums| == |grid| && |colSums| == |grid[0]|
    requires Satisfies(grid, rowSums, colSums)
    ensures Sum(rowSums) == Sum(colSums)
  {
    assert rowSums == RowSums(grid);
    assert colSums == ColSums(grid, |grid[0]|);
    TotalsAgree(grid, |grid[0]|);
  }

  /** The 2 x 2 example: [[1,2],[3,4]] derives targets [3,7] and [4,6], meets
      them itself, and fails them with its second cell unfilled. */
  lemma TwoByTwoExample()
    ensures RowSums([[1, 2], [3, 4]]) == [3, 7]
    ensures ColSums([[1, 2], [3, 4]], 2) == [4, 6]
    ensures Satisfies([[1, 2], [3, 4]], [3, 7], [4, 6])
    ensures !Satisfies([[1, -1], [3, 4]], [3, 7], [4, 6])
  {
    var g := [[1, 2], [3, 4]];
    assert Column(g, 0) == [1, 3];
    assert Column(g, 1) == [2, 4];
    assert Sum([1, 3]) == 4 && Sum([2, 4]) == 6;
    assert Sum([1, -1]) == 0;
  }

  /** The validator performs no completeness check: a grid with no cell
      filled meets targets that happen to equal the sentinel totals. */
  lemma UnfilledGridCanValidate()
    ensures Satisfies([[-1, -1], [-1, -1]], [-2, -2], [-2, -2])
  {
    var g := [[-1, -1], [-1, -1]];
    assert Column(g, 0) == [-1, -1];
    assert Column(g, 1) == [-1, -1];
  }
}
