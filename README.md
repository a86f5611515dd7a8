# CrossMathQuest puzzle engine in Dafny

CrossMathQuest is a console cross-math puzzle. A hidden N x N solution grid
is drawn at random, and the target sum of every row and every column is
derived from it. The player fills a second grid, which starts with every
cell holding the sentinel -1, one cell at a time. After each move the
validator checks the player grid's sums against the targets. The player may
ask for a hint: the first unfilled cell in row-major order is copied from the
solution. A solved puzzle is scored from the time taken and the number of
hints used. The score then unlocks achievements and goes into a leaderboard
sorted highest first. A game can also be saved to, and loaded from, a flat
stream of integers.

The model has one module per component:

- `Grids`: the unfilled sentinel, sums, columns, the row and column sums of
  a grid, and the cells of a two-dimensional array as a sequence of rows.
- `Puzzle`: solution generation (`GenerateGrid`), target derivation
  (`GenerateSums`) and the validator (`CheckSolution`). These are methods
  with the source's nested loops, proved against the specification
  functions `RowSums`, `ColSums` and `Satisfies`.
- `Hints`: the hint provider `GiveHint` and a player's move `Move`. Both
  update the player grid in place, as an `array2<int>`. Each is proved
  against a pure function on the grid's cells (`Hint`, `Place`), and
  lemmas cover row-major order, idempotence and completion.
- `Scoring`: the score expression.
- `Achievements`: the four named achievements and the in-place update over
  an `array<Achievement>`.
- `Leaderboard`: appending a score and sorting the list highest first.
- `SaveGame`: the save/load token stream and its round trip.

The validator sums an unfilled cell as -1. It does not check that the grid is
complete, so `Satisfies` keeps this behaviour (`UnfilledGridCanValidate`).
The player grid is an `array2`, so its rows all have the same length. That
length is the `grid[0].size()` the source uses as the width of every row.

## Model

| member | source | states |
|---|---|---|
| `Grids.TotalsAgree` | CrossMathQuest.cpp:83-96 | the row sums and the column sums of any rectangular grid add up to the same total |
| `Puzzle.Draw` | CrossMathQuest.cpp:75 | a cell drawn from a non-negative random value lies in [0, maxValue] |
| `Puzzle.GenerateGrid` | CrossMathQuest.cpp:69-80 | the generated grid is size x size; every cell is in [0, maxValue] and is the draw consumed at its row-major position, reduced modulo maxValue + 1 |
| `Puzzle.GenerateSums` | CrossMathQuest.cpp:83-96 | N row targets and N column targets; row target i is the sum of the first N cells of row i, column target j is the sum of column j; for a square solution these are exactly its row sums and column sums |
| `Puzzle.CheckSolution` | CrossMathQuest.cpp:44-66 | returns true exactly when every row sums to its row target and every column to its column target, with unfilled cells summed as -1; the early exits agree with the universal check |
| `Puzzle.SolutionSatisfiesItsSums` | CrossMathQuest.cpp:44-96 | a non-empty square solution always validates against the targets derived from it |
| `Puzzle.SatisfiableTargetsAgree` | CrossMathQuest.cpp:44-66 | if any grid meets a pair of target lists, the two lists have the same total |
| `Puzzle.TwoByTwoExample` | CrossMathQuest.cpp:44-96 | [[1,2],[3,4]] derives targets [3,7] and [4,6], meets them, and fails them with one cell unfilled |
| `Puzzle.UnfilledGridCanValidate` | CrossMathQuest.cpp:44-66 | the validator has no completeness check: an all-unfilled 2 x 2 grid meets targets [-2,-2] and [-2,-2] |
| `Hints.FirstUnfilledIn` | CrossMathQuest.cpp:117-121 | the column found is unfilled and no earlier column of the row is; none is found only when the rest of the row is filled |
| `Hints.FirstUnfilledFrom` | CrossMathQuest.cpp:116-123 | the cell found is unfilled and no cell before it in row-major order is; none is found only when every remaining cell is filled |
| `Hints.FirstUnfilledExactly` | CrossMathQuest.cpp:115-124 | the cell a hint picks is (i, j) if and only if (i, j) is unfilled and every cell before it in row-major order is filled |
| `Hints.FirstUnfilledNoneIffFull` | CrossMathQuest.cpp:115-124 | a hint finds no cell to reveal if and only if the grid has no unfilled cell |
| `Hints.GiveHint` | CrossMathQuest.cpp:115-124 | the player grid afterwards equals `Hint` of the grid before: the first unfilled cell in row-major order gets the solution's value, or nothing changes when no cell is unfilled |
| `Hints.Move` | CrossMathQuest.cpp:325 | a move writes the value into the chosen cell and changes no other cell |
| `Hints.HintOnFullGrid` | CrossMathQuest.cpp:115-124 | on a grid with no unfilled cell a hint changes nothing, and neither does a second one |
| `Hints.HintChangesOnlyFirstUnfilled` | CrossMathQuest.cpp:115-124 | after a hint a cell holds the solution's value if it was unfilled with every earlier cell filled, and its old value otherwise |
| `Hints.HintOrder` | CrossMathQuest.cpp:115-124 | after a hint reveals a solution value at (i, j), the next hint's cell, if any, comes strictly after (i, j) in row-major order |
| `Hints.CountUnfilledZero` | CrossMathQuest.cpp:115-124 | a grid has zero unfilled cells if and only if no cell holds -1 |
| `Hints.CountUnfilledFill` | CrossMathQuest.cpp:118-119 | filling one unfilled cell with a value other than -1 leaves exactly one unfilled cell fewer |
| `Hints.HintsComplete` | CrossMathQuest.cpp:115-124 | from a grid whose cells are unfilled or equal to a full solution, as many hints as there are unfilled cells produce exactly that solution |
| `Hints.NewPlayerGrid` | CrossMathQuest.cpp:305 | the starting player grid is N x N with every cell unfilled (-1) |
| `Hints.NewPlayerGridCount` | CrossMathQuest.cpp:305 | the starting player grid has exactly N*N unfilled cells |
| `Hints.HintsAloneSolve` | CrossMathQuest.cpp:303-337 | hints alone, exactly N*N of them, turn the all-unfilled starting grid into one that the validator accepts against the derived targets |
| `Hints.ChangesKeepLegal` | CrossMathQuest.cpp:115-124 | a hint from a legal solution, or a move of a value in [0, maxValue], keeps every player cell unfilled or in [0, maxValue] |
| `Scoring.Score` | CrossMathQuest.cpp:345 | 1000 less one point per second and fifty per hint: never above 1000 for a non-negative duration and hint count, and 1000 minus the duration when no hint was used, so there is no floor |
| `Scoring.ScoreExamples` | CrossMathQuest.cpp:345 | the score is 1000 for (0 s, 0 hints), 870 for (30 s, 2 hints) and -1000 for (2000 s, 0 hints) |
| `Scoring.ScoreCosts` | CrossMathQuest.cpp:345 | each extra second costs exactly one point and each extra hint exactly fifty |
| `Scoring.ScoreAtMost1000` | CrossMathQuest.cpp:345 | with a non-negative duration and hint count the score is at most 1000, and equals 1000 only when both are zero |
| `Scoring.ScoreHasNoFloor` | CrossMathQuest.cpp:345 | every score up to 1000, however negative, is reached by some hint-free duration |
| `Achievements.InitialAchievements` | CrossMathQuest.cpp:248-254 | the list holds four achievements, all locked |
| `Achievements.CheckAchievements` | CrossMathQuest.cpp:258-274 | every achievement in the list is replaced in place by its `Unlock` update, and the list keeps its length |
| `Achievements.UnlockRules` | CrossMathQuest.cpp:258-274 | names and descriptions never change; an unlocked achievement never locks again; "First Puzzle" is always unlocked; "No Hints", "Speed Solver" and "High Scorer" are unlocked if and only if they already were or hintsUsed == 0, duration < 120 and score > 1000 respectively; other names are untouched |
| `Achievements.UnlockIdempotent` | CrossMathQuest.cpp:258-274 | a second update with the same results changes nothing more |
| `Achievements.FirstSolve` | CrossMathQuest.cpp:248-274 | after the first solve the list is exactly: First Puzzle unlocked, No Hints iff no hints, Speed Solver iff under 120 s, High Scorer iff score over 1000 |
| `Achievements.HighScorerUnreachable` | CrossMathQuest.cpp:345-347 | with the session's score formula and non-negative duration and hints, "High Scorer" is never unlocked |
| `Leaderboard.Insert` | CrossMathQuest.cpp:171-172 | inserting a score into a highest-first list gives a highest-first list holding the old scores plus the new one |
| `Leaderboard.SortDescending` | CrossMathQuest.cpp:172 | the result is highest first and a permutation of the input |
| `Leaderboard.UpdateLeaderboard` | CrossMathQuest.cpp:171-172 | the updated board is highest first and a permutation of the old board plus the new score |
| `Leaderboard.SortedPermutationsEqual` | CrossMathQuest.cpp:172 | two highest-first lists with the same scores are equal, so the sorted board does not depend on the sorting algorithm |
| `Leaderboard.UpdateAddsOne` | CrossMathQuest.cpp:171-172 | the board grows by exactly one entry and contains the new score |
| `SaveGame.Save` | CrossMathQuest.cpp:127-143 | a save writes one token per cell, then one per row target, then one per column target |
| `SaveGame.Load` | CrossMathQuest.cpp:146-159 | a load keeps the grid's shape and the lengths of both target lists |
| `SaveGame.ReshapeFlatten` | CrossMathQuest.cpp:146-152 | reading a grid's row-major cells back into rows of its shape restores the grid |
| `SaveGame.SaveLoadRoundTrip` | CrossMathQuest.cpp:127-159 | loading the stream a save wrote, into containers of the same sizes, gives back the saved grid, row targets and column targets exactly |
| `SaveGame.LoadEmptyStream` | CrossMathQuest.cpp:146-159 | loading an empty stream leaves the grid and both target lists as they were |
| `SaveGame.FlattenAt` | CrossMathQuest.cpp:129-134 | in a rectangular grid of width w, cell (i, j) is token i * w + j of the saved cells |
| `SaveGame.SaveLayout` | CrossMathQuest.cpp:127-143 | a saved N x N game has N*N + 2N tokens: cell (i, j) at i*N + j, row target i at N*N + i, column target j at N*N + N + j |

## Left out

- Console output and input: `printGrid`, `getUserInput` with its retry loop, and every message printed, including those printed inside `checkAchievements`. These are presentation only.
- The interactive loop of `main` beyond one move (`Move`) and one hint (`GiveHint`). `HintsAloneSolve` states only that hints alone turn the starting grid into one the validator accepts; in `main` every pass of the loop starts with a move. Input arrives already validated, as the source's input loop guarantees.
- `registerUser`, `loginUser`, `loadUsers`, `saveUsers` and the high-score update in `main`: account storage with console retry and no puzzle logic.
- File handles: `saveGame`, `loadGame` and `updateLeaderboard` are modelled only as the integer sequences they write and read. The whitespace and line breaks of the files, and `displayLeaderboard`, are not modelled.
- `srand(time(0))`, `rand()` and `steady_clock`: random values arrive as a sequence of non-negative draws, and the elapsed seconds as a parameter.
- C++ `int` overflow in sums, scores and the truncation of the elapsed time to `int`: all integers are unbounded.
- `SaveGame.Load`: a token that is not an integer is not modelled, because the stream holds only integers. A stream that runs dry leaves the remaining slots unchanged, as a failed extraction does.
- `Hints.GiveHint`: the player grid is rectangular, so the source's ragged rows, where `grid[0].size()` may differ from the length of another row, are not modelled. The solution must cover every cell of the player grid, although the source reads only the revealed cell.
- `Puzzle.GenerateGrid`: requires `maxValue >= 0` and a non-negative size. A negative `maxValue` (division by zero or a negative divisor) is a caller error in the source.
