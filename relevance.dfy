/** The overall relevance score (`relevance_score`): half the keyword
    score plus capped credits for skills, achievements and years, capped at
    100. */
module Relevance {

  function Min(a: int, b: int): int { if a <= b then a else b }

  /** `int(x / 2)` for the exact half `x / 2`: truncation toward zero. */
  function TruncHalf(x: int): int { if x >= 0 then x / 2 else -((-x) / 2) }

  /** `int(min(100, ks * 0.5 + sc + ac + ye))`.  The float sum is an exact
      half, so it is kept doubled as an integer; `min` returns the int 100
      when the sum is not below it. */
  function RelevanceScore(keywordScore: int, skillsCount: int, achievementsCount: int, years: int): (score: int)
    ensures score <= 100
  {
    var sc := Min(30, skillsCount * 5);
    var ac := Min(20, achievementsCount * 4);
    var ye := Min(20, years * 2);
    var twiceBase := keywordScore + 2 * (sc + ac + ye);
    if twiceBase >= 200 then 100 else TruncHalf(twiceBase)
  }

  /** For non-negative inputs the score is in [0, 100] and is the capped
      integer sum. */
  lemma NonNegativeInputs(ks: int, s: int, a: int, y: int)
    requires ks >= 0 && s >= 0 && a >= 0 && y >= 0
    ensures 0 <= RelevanceScore(ks, s, a, y) <= 100
    ensures RelevanceScore(ks, s, a, y)
         == Min(100, ks / 2 + Min(30, 5 * s) + Min(20, 4 * a) + Min(20, 2 * y))
  {
    var c := Min(30, 5 * s) + Min(20, 4 * a) + Min(20, 2 * y);
    HalfShift(ks, c);
  }

  lemma HalfShift(k: int, c: int)
    requires k >= 0
    ensures (k + 2 * c) / 2 == k / 2 + c
  {
  }

  /** Raising any input never lowers the score. */
  lemma Monotone(ks: int, s: int, a: int, y: int, ks': int, s': int, a': int, y': int)
    requires ks <= ks' && s <= s' && a <= a' && y <= y'
    ensures RelevanceScore(ks, s, a, y) <= RelevanceScore(ks', s', a', y')
  {
    var t := ks + 2 * (Min(30, s * 5) + Min(20, a * 4) + Min(20, y * 2));
    var t' := ks' + 2 * (Min(30, s' * 5) + Min(20, a' * 4) + Min(20, y' * 2));
    assert t <= t' by {
      MulMono(s, s', 5);
      MulMono(a, a', 4);
      MulMono(y, y', 2);
    }
    TruncHalfMono(t, t');
  }

  lemma MulMono(x: int, x': int, k: nat)
    requires x <= x'
    ensures x * k <= x' * k
  {
  }

  lemma TruncHalfMono(t: int, t': int)
    requires t <= t'
    ensures TruncHalf(t) <= TruncHalf(t')
  {
  }

  /** The extremes: full marks everywhere give 100, nothing gives 0. */
  lemma Extremes()
    ensures RelevanceScore(100, 100, 100, 100) == 100
    ensures RelevanceScore(0, 0, 0, 0) == 0
  {
  }

  /** A negative keyword score is halved toward zero, as `int` does:
      -1 gives 0 and -3 gives -1. */
  lemma NegativeHalvesTowardZero()
    ensures RelevanceScore(-1, 0, 0, 0) == 0
    ensures RelevanceScore(-3, 0, 0, 0) == -1
  {
  }
}
