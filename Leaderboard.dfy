/** The leaderboard update: the new score joins the stored ones and the list
    is kept highest first. */
module Leaderboard {

  predicate SortedDescending(s: seq<int>)
  {
    forall i, j :: 0 <= i < j < |s| ==> s[i] >= s[j]
  }

  /** `x` placed into a list that is already highest first. */
  function Insert(x: int, s: seq<int>): (r: seq<int>)
    requires SortedDescending(s)
    ensures SortedDescending(r)
    ensures multiset(r) == multiset(s) + multiset{x}
    ensures |r| == |s| + 1 && (r[0] == x || (|s| > 0 && r[0] == s[0]))
  {
    if |s| == 0 then [x]
    else if x >= s[0] then [x] + s
    else
      var rest := Insert(x, s[1..]);
      assert s == [s[0]] + s[1..];
      [s[0]] + rest
  }

  /** The scores of `s`, highest first. */
  function SortDescending(s: seq<int>): (r: seq<int>)
    ensures SortedDescending(r)
    ensures multiset(r) == multiset(s)
  {
    if |s| == 0 then []
    else
      assert s == s[..|s| - 1] + [s[|s| - 1]];
      Insert(s[|s| - 1], SortDescending(s[..|s| - 1]))
  }

  /** The stored scores with the new one appended, sorted highest first. */
  function UpdateLeaderboard(board: seq<int>, score: int): (r: seq<int>)
    ensures SortedDescending(r)
    ensures multiset(r) == multiset(board) + multiset{score}
  {
    SortDescending(board + [score])
  }

  /** A list is determined by its scores once it is highest first, so any
      sort that orders the same scores the same way gives this leaderboard. */
  lemma {:induction false} SortedPermutationsEqual(a: seq<int>, b: seq<int>)
    requires SortedDescending(a) && SortedDescending(b)
    requires multiset(a) == multiset(b)
    ensures a == b
    decreases |a|
  {
    if a == [] {
      assert |multiset(b)| == 0;
    } else {
      assert b != [] by { assert a[0] in multiset(b); }
      HeadIsLargest(a, b[0]);
      HeadIsLargest(b, a[0]);
      assert a[0] == b[0];
      assert a == [a[0]] + a[1..] && b == [b[0]] + b[1..];
      assert multiset(a) == multiset{a[0]} + multiset(a[1..]);
      assert multiset(b) == multiset{a[0]} + multiset(b[1..]);
      assert multiset(a[1..]) == multiset(a) - multiset{a[0]} == multiset(b[1..]);
      SortedPermutationsEqual(a[1..], b[1..]);
    }
  }

  /** The first entry of a highest-first list is at least every score in it. */
  lemma HeadIsLargest(s: seq<int>, x: int)
    requires SortedDescending(s) && x in multiset(s)
    ensures s[0] >= x
  {
  }

  /** The update grows the board by exactly one entry, the new score among
      them. */
  lemma UpdateAddsOne(board: seq<int>, score: int)
    ensures |UpdateLeaderboard(board, score)| == |board| + 1
    ensures score in UpdateLeaderboard(board, score)
  {
    var r := UpdateLeaderboard(board, score);
    assert |multiset(r)| == |r|;
    assert score in multiset(r);
  }
}
