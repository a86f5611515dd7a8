/** The score of a solved puzzle. */
module Scoring {

  /** 1000 points, less one per second taken and fifty per hint used. There
      is no floor, so a long or hint-heavy session scores below zero. */
  function Score(duration: int, hintsUsed: int): (score: int)
    ensures 0 <= duration && 0 <= hintsUsed ==> score <= 1000
    ensures hintsUsed == 0 ==> score == 1000 - duration
  {
    1000 - duration - hintsUsed * 50
  }

  /** The worked examples: an instant hint-free solve, thirty seconds with
      two hints, and a session slow enough to go negative. */
  lemma ScoreExamples()
    ensures Score(0, 0) == 1000
    ensures Score(30, 2) == 870
    ensures Score(2000, 0) == -1000
  {
  }

  /** Each extra second costs one point and each extra hint fifty. */
  lemma ScoreCosts(duration: int, hintsUsed: int)
    ensures Score(duration + 1, hintsUsed) == Score(duration, hintsUsed) - 1
    ensures Score(duration, hintsUsed + 1) == Score(duration, hintsUsed) - 50
  {
  }

  /** A real session (no negative time, no negative hint count) never scores
      above 1000, and scores exactly 1000 only with no time and no hints. */
  lemma ScoreAtMost1000(duration: int, hintsUsed: int)
    requires 0 <= duration && 0 <= hintsUsed
    ensures Score(duration, hintsUsed) <= 1000
    ensures Score(duration, hintsUsed) == 1000 <==> duration == 0 && hintsUsed == 0
  {
  }

  /** No floor: any score, however low, is reached by a hint-free session of
      the right length. */
  lemma ScoreHasNoFloor(target: int)
    requires target <= 1000
    ensures 0 <= 1000 - target && Score(1000 - target, 0) == target
  {
  }
}
