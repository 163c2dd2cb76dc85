/** Stage progression: drop speed, lines required per stage, and the points
    a sweep is worth. Times are in milliseconds. */
module Stage {

  const FastDropInterval: int := 50
  const BaseDropInterval: int := 1000
  const StageSpeedIncrease: int := 50
  const MinDropInterval: int := 100
  const InitialLinesPerStage: int := 2

  function Max(a: int, b: int): int
  {
    if a >= b then a else b
  }

  /** `calculateDropInterval`: 50 ms faster per stage, never below 100 ms. */
  function CalculateDropInterval(stage: int): (ms: int)
    ensures ms >= MinDropInterval
    ensures stage <= 19 ==> ms == BaseDropInterval - (stage - 1) * StageSpeedIncrease
    ensures stage >= 19 ==> ms == MinDropInterval
  {
    Max(MinDropInterval, BaseDropInterval - (stage - 1) * StageSpeedIncrease)
  }

  /** A later stage is never slower. */
  lemma DropIntervalNonIncreasing(s1: int, s2: int)
    requires s1 <= s2
    ensures CalculateDropInterval(s1) >= CalculateDropInterval(s2)
  {
  }

  lemma DropIntervalSamples()
    ensures CalculateDropInterval(1) == 1000
    ensures CalculateDropInterval(2) == 950
    ensures CalculateDropInterval(3) == 900
    ensures CalculateDropInterval(18) == 150
    ensures CalculateDropInterval(19) == 100
    ensures CalculateDropInterval(40) == 100
  {
  }

  /** Lines a stage requires, as `advanceStage` sets `linesPerStage`. */
  function LinesForStage(stage: int): int
  {
    InitialLinesPerStage + (stage - 1) * 2
  }

  /** Each stage asks for two more lines than the one before. */
  lemma LinesGrowByTwo(stage: int)
    ensures LinesForStage(stage + 1) == LinesForStage(stage) + 2
    ensures LinesForStage(1) == 2 && LinesForStage(2) == 4
  {
  }

  /** The points table of `arenaSweep`, indexed by rows cleared. */
  const Points: seq<nat> := [0, 10, 30, 50, 100]

  /** `points[k] || points[4]`: a missing or zero entry falls back to the
      four-row value. */
  function LinePoints(k: nat): (p: nat)
    ensures 1 <= k <= 3 ==> p == 20 * k - 10
    ensures (k == 0 || k >= 4) ==> p == 100
  {
    if k < |Points| && Points[k] != 0 then Points[k] else Points[4]
  }

  /** Points added for a sweep clearing k rows at a stage. */
  function Award(k: nat, stage: int): int
  {
    LinePoints(k) * stage
  }

  lemma AwardSamples()
    ensures Award(1, 1) == 10
    ensures Award(1, 3) == 30
    ensures Award(4, 2) == 200
    ensures Award(2, 1) == 30 && Award(3, 1) == 50
  {
  }
}
