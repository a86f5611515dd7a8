/** Saving and loading a game as one stream of integers: the player grid's
    cells row by row, then the row targets, then the column targets. */
module SaveGame {
  import opened Grids

  /** The number of cells in a grid. */
  function CellCount(g: seq<seq<int>>): nat
  {
    if |g| == 0 then 0 else |g[0]| + CellCount(g[1..])
  }

  /** The cells of a grid in row-major order. */
  function Flatten(g: seq<seq<int>>): (flat: seq<int>)
    ensures |flat| == CellCount(g)
  {
    if |g| == 0 then [] else g[0] + Flatten(g[1..])
  }

  /** The token stream a save writes. */
  function Save(grid: seq<seq<int>>, rowSums: seq<int>, colSums: seq<int>): (tokens: seq<int>)
    ensures |tokens| == CellCount(grid) + |rowSums| + |colSums|
  {
    Flatten(grid) + rowSums + colSums
  }

  /** Reading `tokens` one by one into `slots`: a stream that runs dry
      leaves the remaining slots as they were, and tokens past the last slot
      are never read. */
  function ReadInto(slots: seq<int>, tokens: seq<int>): (r: seq<int>)
    ensures |r| == |slots|
  {
    seq(|slots|, k requires 0 <= k < |slots| => if k < |tokens| then tokens[k] else slots[k])
  }

  /** Cuts a row-major run of cells into rows as long as those of `shape`. */
  function Reshape(flat: seq<int>, shape: seq<seq<int>>): (g: seq<seq<int>>)
    requires |flat| == CellCount(shape)
    ensures SameShape(g, shape)
  {
    if |shape| == 0 then []
    else [flat[..|shape[0]|]] + Reshape(flat[|shape[0]|..], shape[1..])
  }

  /** Loading into a grid and two target lists that already have their sizes:
      the stream fills the grid's cells row by row, then the row targets,
      then the column targets. */
  function Load(tokens: seq<int>, grid: seq<seq<int>>, rowSums: seq<int>, colSums: seq<int>)
    : (loaded: (seq<seq<int>>, seq<int>, seq<int>))
    ensures SameShape(loaded.0, grid) && |loaded.1| == |rowSums| && |loaded.2| == |colSums|
  {
    var cells := CellCount(grid);
    var read := ReadInto(Save(grid, rowSums, colSums), tokens);
    (Reshape(read[..cells], grid), read[cells..cells + |rowSums|], read[cells + |rowSums|..])
  }

  lemma {:induction false} SameShapeSameCount(g: seq<seq<int>>, shape: seq<seq<int>>)
    requires SameShape(g, shape)
    ensures CellCount(g) == CellCount(shape)
  {
    if |g| > 0 {
      SameShapeSameCount(g[1..], shape[1..]);
    }
  }

  /** Cutting a flattened grid back into rows of its own shape restores it. */
  lemma {:induction false} ReshapeFlatten(g: seq<seq<int>>, shape: seq<seq<int>>)
    requires SameShape(g, shape)
    ensures CellCount(g) == CellCount(shape)
    ensures Reshape(Flatten(g), shape) == g
  {
    SameShapeSameCount(g, shape);
    if |g| > 0 {
      var flat := Flatten(g);
      assert flat[..|shape[0]|] == g[0];
      assert flat[|shape[0]|..] == Flatten(g[1..]);
      ReshapeFlatten(g[1..], shape[1..]);
      assert g == [g[0]] + g[1..];
    }
  }

  /** Round trip: loading what a save wrote, into containers of the same
      sizes, gives back the saved grid and targets exactly. */
  lemma SaveLoadRoundTrip(g: seq<seq<int>>, r: seq<int>, c: seq<int>,
                          grid: seq<seq<int>>, rowSums: seq<int>, colSums: seq<int>)
    requires SameShape(g, grid) && |r| == |rowSums| && |c| == |colSums|
    ensures Load(Save(g, r, c), grid, rowSums, colSums) == (g, r, c)
  {
    ReshapeFlatten(g, grid);
    var tokens := Save(g, r, c);
    var read := ReadInto(Save(grid, rowSums, colSums), tokens);
    assert read == tokens;
    var cells := CellCount(grid);
    assert tokens[..cells] == Flatten(g);
    assert tokens[cells..cells + |r|] == r;
    assert tokens[cells + |r|..] == c;
  }

  /** Loading an empty stream changes nothing. */
  lemma LoadEmptyStream(grid: seq<seq<int>>, rowSums: seq<int>, colSums: seq<int>)
    ensures Load([], grid, rowSums, colSums) == (grid, rowSums, colSums)
  {
    SaveLoadRoundTrip(grid, rowSums, colSums, grid, rowSums, colSums);
    var saved := Save(grid, rowSums, colSums);
    assert ReadInto(saved, []) == ReadInto(saved, saved);
  }

  /** In a rectangular grid, cell (i, j) is token i * width + j of its
      flattening. */
  lemma {:induction false} FlattenAt(g: seq<seq<int>>, width: nat, i: nat, j: nat)
    requires IsRectangular(g, width) && i < |g| && j < width
    ensures CellCount(g) == |g| * width
    ensures i * width + j < CellCount(g) && Flatten(g)[i * width + j] == g[i][j]
  {
    CountRectangular(g, width);
    if i > 0 {
      var k := (i - 1) * width + j;
      FlattenAt(g[1..], width, i - 1, j);
      ShiftRow(i, width);
      assert i * width + j == |g[0]| + k;
      assert Flatten(g) == g[0] + Flatten(g[1..]);
      assert Flatten(g)[|g[0]| + k] == Flatten(g[1..])[k];
    }
  }

  lemma ShiftRow(i: nat, width: nat)
    requires i > 0
    ensures i * width == (i - 1) * width + width
  {
  }

  lemma {:induction false} CountRectangular(g: seq<seq<int>>, width: nat)
    requires IsRectangular(g, width)
    ensures CellCount(g) == |g| * width
  {
    if |g| > 0 {
      CountRectangular(g[1..], width);
      ShiftRow(|g|, width);
    }
  }

  /** The layout of a saved N x N game: N * N cells in row-major order, then
      N row targets, then N column targets. */
  lemma SaveLayout(grid: seq<seq<int>>, rowSums: seq<int>, colSums: seq<int>, i: nat, j: nat)
    requires IsSquare(grid) && |rowSums| == |grid| && |colSums| == |grid|
    requires i < |grid| && j < |grid|
    ensures var n := |grid|; var tokens := Save(grid, rowSums, colSums);
      |tokens| == n * n + 2 * n &&
      i * n + j < n * n && tokens[i * n + j] == grid[i][j] &&
      tokens[n * n + i] == rowSums[i] &&
      tokens[n * n + n + j] == colSums[j]
  {
    FlattenAt(grid, |grid|, i, j);
  }
}
