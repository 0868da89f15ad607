/**
 The scoring table of updateScore, the level derived from the score, and
 the gravity threshold of update.
 */
module Scoring {

  /**
   Points added for one lock: 100, 300, 500 or 800 for one to four lines;
   the switch has no default, so every other count adds nothing.
   */
  function Points(lines: int): (p: int)
    ensures p >= 0
    ensures p > 0 <==> 1 <= lines <= 4
    ensures p % 100 == 0 && (lines >= 0 ==> p <= 200 * lines)
  {
    if lines == 1 then 100
    else if lines == 2 then 300
    else if lines == 3 then 500
    else if lines == 4 then 800
    else 0
  }

  /** Clearing more lines at once is worth strictly more. */
  lemma PointsIncreasing(a: int, b: int)
    requires 0 <= a < b <= 4
    ensures Points(a) < Points(b)
  {
  }

  /**
   `level = 1 + score / 1000`. The score is never negative, so C++'s
   truncating division agrees with Dafny's.
   */
  function LevelFor(score: int): (level: int)
    requires score >= 0
    ensures level >= 1
    ensures (level - 1) * 1000 <= score < level * 1000
  {
    1 + score / 1000
  }

  /** The level never drops while the score grows. */
  lemma LevelMonotonic(a: int, b: int)
    requires 0 <= a <= b
    ensures LevelFor(a) <= LevelFor(b)
  {
  }

  /** Scores 0, 999, 1000 and 2500 give levels 1, 1, 2 and 3. */
  lemma LevelExamples()
    ensures LevelFor(0) == 1 && LevelFor(999) == 1 && LevelFor(1000) == 2 && LevelFor(2500) == 3
  {
  }

  /** update's test `dropTimer >= 20 - level`, with no clamping of the threshold. */
  predicate GravityDue(dropTimer: int, level: int) {
    dropTimer >= 20 - level
  }

  /**
   From level 19 on the threshold is at most 1, so a timer that has just
   been incremented from a non-negative value always fires: gravity acts every tick.
   */
  lemma GravityEveryTickFromLevel19(dropTimer: int, level: int)
    requires dropTimer >= 0 && level >= 19
    ensures GravityDue(dropTimer + 1, level)
  {
  }
}
