// The integer part of updateScore (script.js:217-227) and the drop interval of a level.

module Scoring {

  /** Lines per level: the level is floor(lines / 10) + 1. */
  const LINES_PER_LEVEL: int := 10

  /** Drop interval of level 1 and its lower bound, in milliseconds. */
  const START_INTERVAL: real := 1000.0
  const MIN_INTERVAL: real := 50.0

  /**
   * Points for clearing n lines at the given level with the given combo count: n * 100 *
   * level, plus 400 for four lines, times the combo count (taken as 1 when it is 0).
   */
  function ScoreDelta(n: int, level: int, combo: int): int
  {
    var basePoints := n * 100 * level + (if n == 4 then 400 else 0);
    basePoints * (if combo > 0 then combo else 1)
  }

  /** Four lines at level 1 with combo 1 are worth exactly 800; no lines are worth nothing. */
  lemma ScoreExamples(level: int, combo: int)
    ensures ScoreDelta(4, 1, 1) == 800
    ensures ScoreDelta(0, level, combo) == 0
    ensures ScoreDelta(1, 1, 2) == 200
  {
  }

  function Pow(b: real, k: nat): real
  {
    if k == 0 then 1.0 else b * Pow(b, k - 1)
  }

  /**
   * `Math.max(50, 1000 * Math.pow(0.85, level - 1))`, computed exactly on reals (the
   * source computes it in floating point).
   */
  function DropInterval(level: int): real
    requires level >= 1
  {
    var v := START_INTERVAL * Pow(0.85, level - 1);
    if MIN_INTERVAL > v then MIN_INTERVAL else v
  }

  lemma {:induction false} PowShrinks(k: nat)
    ensures 0.0 < Pow(0.85, k) <= 1.0
    ensures Pow(0.85, k + 1) < Pow(0.85, k)
  {
    if k > 0 {
      PowShrinks(k - 1);
    }
  }

  /**
   * The drop interval starts at 1000 ms, never goes below 50 ms, never grows as the
   * level rises, and strictly shrinks at each level-up until it reaches the 50 ms floor.
   */
  lemma {:induction false} DropIntervalMonotone(l1: int, l2: int)
    requires 1 <= l1 <= l2
    ensures DropInterval(1) == START_INTERVAL
    ensures MIN_INTERVAL <= DropInterval(l2) <= DropInterval(l1) <= START_INTERVAL
    ensures l1 < l2 && DropInterval(l1) > MIN_INTERVAL ==> DropInterval(l2) < DropInterval(l1)
    decreases l2 - l1
  {
    PowShrinks(l1 - 1);
    if l1 < l2 {
      DropIntervalMonotone(l1 + 1, l2);
      PowShrinks(l1);
    }
  }
}
