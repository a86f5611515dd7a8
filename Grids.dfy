/** Shared vocabulary of the puzzle: grids of integer cells, the unfilled
    sentinel, and the row and column sums that the targets are made of. */
module Grids {

  datatype Option<T> = None | Some(value: T)

  /** The value a player-grid cell holds until it is filled. */
  const Unfilled: int := -1

  /** Sum of a sequence, peeled from the back so that a running total
      extends it one element at a time. */
  function Sum(s: seq<int>): int
  {
    if |s| == 0 then 0 else Sum(s[..|s| - 1]) + s[|s| - 1]
  }

  /** Every row of `g` has at least `width` cells. */
  predicate HasWidth(g: seq<seq<int>>, width: int)
  {
    forall i :: 0 <= i < |g| ==> width <= |g[i]|
  }

  /** Every row of `g` has exactly `width` cells. */
  predicate IsRectangular(g: seq<seq<int>>, width: int)
  {
    forall i :: 0 <= i < |g| ==> |g[i]| == width
  }

  /** An N x N grid. */
  predicate IsSquare(g: seq<seq<int>>)
  {
    IsRectangular(g, |g|)
  }

  /** Column `j` of `g`, top to bottom. */
  function Column(g: seq<seq<int>>, j: nat): (c: seq<int>)
    requires HasWidth(g, j + 1)
    ensures |c| == |g|
    ensures forall i :: 0 <= i < |g| ==> c[i] == g[i][j]
  {
    seq(|g|, i requires 0 <= i < |g| => g[i][j])
  }

  /** The sum of each row, in row order. */
  function RowSums(g: seq<seq<int>>): (r: seq<int>)
    ensures |r| == |g|
    ensures forall i :: 0 <= i < |g| ==> r[i] == Sum(g[i])
  {
    seq(|g|, i requires 0 <= i < |g| => Sum(g[i]))
  }

  /** The sum of each of the first `width` columns, in column order. */
  function ColSums(g: seq<seq<int>>, width: nat): (c: seq<int>)
    requires HasWidth(g, width)
    ensures |c| == width
    ensures forall j :: 0 <= j < width ==> c[j] == Sum(Column(g, j))
  {
    seq(width, j requires 0 <= j < width => Sum(Column(g, j)))
  }

  /** `a` and `b` have the same number of rows and matching row lengths. */
  predicate SameShape(a: seq<seq<int>>, b: seq<seq<int>>)
  {
    |a| == |b| && forall i :: 0 <= i < |a| ==> |a[i]| == |b[i]|
  }

  /** The cells of a two-dimensional array, row by row. */
  ghost function Cells(a: array2<int>): (g: seq<seq<int>>)
    reads a
    ensures |g| == a.Length0
    ensures IsRectangular(g, a.Length1)
    ensures forall i, j :: 0 <= i < a.Length0 && 0 <= j < a.Length1 ==> g[i][j] == a[i, j]
  {
    seq(a.Length0, i requires 0 <= i < a.Length0 reads a =>
      seq(a.Length1, j requires 0 <= j < a.Length1 reads a => a[i, j]))
  }

  /** Adding two sequences element by element adds their sums. */
  lemma {:induction false} SumPointwise(a: seq<int>, b: seq<int>, c: seq<int>)
    requires |a| == |b| == |c|
    requires forall k :: 0 <= k < |c| ==> c[k] == a[k] + b[k]
    ensures Sum(c) == Sum(a) + Sum(b)
  {
    if |c| > 0 {
      var n := |c| - 1;
      SumPointwise(a[..n], b[..n], c[..n]);
    }
  }

  /** Summing a grid row by row or column by column gives the same total:
      the row sums and the column sums of any rectangular grid agree. */
  lemma {:induction false} TotalsAgree(g: seq<seq<int>>, width: nat)
    requires IsRectangular(g, width)
    ensures Sum(ColSums(g, width)) == Sum(RowSums(g))
  {
    if |g| == 0 {
      EmptyColSums(width);
    } else {
      var n := |g| - 1;
      var top := g[..n];
      TotalsAgree(top, width);
      ColSumsLastRow(g, width);
      SumPointwise(ColSums(top, width), g[n], ColSums(g, width));
      RowSumsLastRow(g);
    }
  }

  lemma EmptyColSums(width: nat)
    ensures Sum(ColSums([], width)) == 0
  {
    assert ColSums([], width) == seq(width, j => 0) by {
      forall j | 0 <= j < width ensures ColSums([], width)[j] == 0 {
        assert Column([], j) == [];
      }
    }
    ZeroSum(width);
  }

  /** Adding a last row to a grid adds its sum to the total of the row sums. */
  lemma RowSumsLastRow(g: seq<seq<int>>)
    requires |g| > 0
    ensures Sum(RowSums(g)) == Sum(RowSums(g[..|g| - 1])) + Sum(g[|g| - 1])
  {
    assert RowSums(g)[..|g| - 1] == RowSums(g[..|g| - 1]);
  }

  /** Adding a last row to a grid adds its cells to the column sums. */
  lemma ColSumsLastRow(g: seq<seq<int>>, width: nat)
    requires IsRectangular(g, width) && |g| > 0
    ensures forall j :: 0 <= j < width ==>
      ColSums(g, width)[j] == ColSums(g[..|g| - 1], width)[j] + g[|g| - 1][j]
  {
    var n := |g| - 1;
    forall j | 0 <= j < width
      ensures ColSums(g, width)[j] == ColSums(g[..n], width)[j] + g[n][j]
    {
      assert Column(g, j)[..n] == Column(g[..n], j);
    }
  }

  lemma {:induction false} ZeroSum(n: nat)
    ensures Sum(seq(n, j => 0)) == 0
  {
    if n > 0 {
      assert seq(n, j => 0)[..n - 1] == seq(n - 1, j => 0);
      ZeroSum(n - 1);
    }
  }
}
