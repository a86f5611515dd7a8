/** The four named achievements and the update run once a puzzle is solved. */
module Achievements {
  import Scoring

  datatype Achievement = Achievement(name: string, description: string, achieved: bool)

  /** The achievement list a session starts with, every one still locked. */
  function InitialAchievements(): (list: seq<Achievement>)
    ensures |list| == 4
    ensures forall k :: 0 <= k < |list| ==> !list[k].achieved
  {
    [ Achievement("First Puzzle", "Complete your first puzzle", false),
      Achievement("No Hints", "Complete a puzzle without using hints", false),
      Achievement("Speed Solver", "Complete a puzzle in under 2 minutes", false),
      Achievement("High Scorer", "Achieve a score of over 1000", false) ]
  }

  /** One achievement after a solve with the given score, hint count and
      duration in seconds: the first rule whose name matches and whose
      condition holds unlocks a locked achievement. */
  function Unlock(a: Achievement, score: int, hintsUsed: int, duration: int): Achievement
  {
    if a.name == "First Puzzle" && !a.achieved then a.(achieved := true)
    else if a.name == "No Hints" && hintsUsed == 0 && !a.achieved then a.(achieved := true)
    else if a.name == "Speed Solver" && duration < 120 && !a.achieved then a.(achieved := true)
    else if a.name == "High Scorer" && score > 1000 && !a.achieved then a.(achieved := true)
    else a
  }

  /** The whole list after a solve. */
  function UnlockAll(list: seq<Achievement>, score: int, hintsUsed: int, duration: int): (r: seq<Achievement>)
    ensures |r| == |list|
  {
    seq(|list|, k requires 0 <= k < |list| => Unlock(list[k], score, hintsUsed, duration))
  }

  /** The achievement update, in place over the list. */
  method CheckAchievements(achievements: array<Achievement>, score: int, hintsUsed: int, duration: int)
    modifies achievements
    ensures achievements[..] == UnlockAll(old(achievements[..]), score, hintsUsed, duration)
  {
    for k := 0 to achievements.Length
      invariant forall m :: 0 <= m < k ==> achievements[m] == Unlock(old(achievements[m]), score, hintsUsed, duration)
      invariant forall m :: k <= m < achievements.Length ==> achievements[m] == old(achievements[m])
    {
      achievements[k] := Unlock(achievements[k], score, hintsUsed, duration);
    }
  }

  /** What an update does to one achievement: it keeps its name and
      description, never locks it again, and unlocks it by these rules. */
  lemma UnlockRules(a: Achievement, score: int, hintsUsed: int, duration: int)
    ensures var b := Unlock(a, score, hintsUsed, duration);
      b.name == a.name && b.description == a.description &&
      (a.achieved ==> b.achieved) &&
      (a.name == "First Puzzle" ==> b.achieved) &&
      (a.name == "No Hints" ==> (b.achieved <==> a.achieved || hintsUsed == 0)) &&
      (a.name == "Speed Solver" ==> (b.achieved <==> a.achieved || duration < 120)) &&
      (a.name == "High Scorer" ==> (b.achieved <==> a.achieved || score > 1000)) &&
      (a.name !in {"First Puzzle", "No Hints", "Speed Solver", "High Scorer"} ==> b == a)
  {
  }

  /** The update is idempotent: a second run with the same results changes
      nothing more. */
  lemma UnlockIdempotent(list: seq<Achievement>, score: int, hintsUsed: int, duration: int)
    ensures UnlockAll(UnlockAll(list, score, hintsUsed, duration), score, hintsUsed, duration)
      == UnlockAll(list, score, hintsUsed, duration)
  {
  }

  /** After the first solve of a session, "First Puzzle" is unlocked and each
      of the other three is unlocked exactly when its condition holds. */
  lemma FirstSolve(score: int, hintsUsed: int, duration: int)
    ensures UnlockAll(InitialAchievements(), score, hintsUsed, duration) ==
      [ Achievement("First Puzzle", "Complete your first puzzle", true),
        Achievement("No Hints", "Complete a puzzle without using hints", hintsUsed == 0),
        Achievement("Speed Solver", "Complete a puzzle in under 2 minutes", duration < 120),
        Achievement("High Scorer", "Achieve a score of over 1000", score > 1000) ]
  {
  }

  /** "High Scorer" can never be unlocked by a real session: its score is
      computed from a non-negative duration and hint count, so it never
      exceeds 1000. */
  lemma HighScorerUnreachable(a: Achievement, duration: int, hintsUsed: int)
    requires a.name == "High Scorer" && 0 <= duration && 0 <= hintsUsed
    ensures Unlock(a, Scoring.Score(duration, hintsUsed), hintsUsed, duration) == a
  {
  }
}
