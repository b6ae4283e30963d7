/**
 * The similarity scorer of VocAPI (`similarity` and `isSimilar`): a position-anchored
 * comparison of two words over the length of the shorter one.
 */
module Scorer {
  import opened Wrappers

  /** Number of leading positions that are compared: the length of the shorter word. */
  function MinLen(a: string, b: string): (m: nat)
    ensures m <= |a| && m <= |b|
    ensures m == |a| || m == |b|
  {
    if |a| < |b| then |a| else |b|
  }

  /** Number of positions k < n at which `a` and `b` hold different characters. */
  function Mismatches(a: string, b: string, n: nat): (r: nat)
    requires n <= |a| && n <= |b|
    ensures r <= n
  {
    if n == 0 then 0
    else Mismatches(a, b, n - 1) + (if a[n - 1] != b[n - 1] then 1 else 0)
  }

  /** The divisor of the score: the shorter length, taken as 1 when it is 0. */
  function Divisor(a: string, b: string): (d: nat)
    ensures d >= 1 && d >= MinLen(a, b)
  {
    if MinLen(a, b) == 0 then 1 else MinLen(a, b)
  }

  /**
   * The score of two words: one minus the share of mismatching positions among the
   * positions both words have. It never leaves [0, 1].
   */
  function Score(a: string, b: string): (s: real)
    ensures 0.0 <= s <= 1.0
  {
    1.0 - (Mismatches(a, b, MinLen(a, b)) as real) / (Divisor(a, b) as real)
  }

  /** The score after subtracting `step` from 1, k times. */
  function AfterSteps(k: nat, step: real): real {
    if k == 0 then 1.0 else AfterSteps(k - 1, step) - step
  }

  /** k subtractions of 1 / d take k / d off the initial score of 1. */
  lemma {:induction false} AfterStepsIsShare(k: nat, d: real)
    requires d > 0.0
    ensures AfterSteps(k, 1.0 / d) == 1.0 - (k as real) / d
  {
    if k > 0 {
      AfterStepsIsShare(k - 1, d);
      assert (k as real) / d == ((k - 1) as real) / d + 1.0 / d;
    }
  }

  /**
   * `similarity(word1, word2)`: starts at 1 and subtracts one step, 1 / the shorter
   * length, for every mismatching position while both words still have characters.
   */
  method Similarity(word1: string, word2: string) returns (similarity: real)
    ensures similarity == Score(word1, word2)
  {
    similarity := 1.0;
    var minLen := if |word1| < |word2| then |word1| else |word2|;
    var step := 1.0 / (if minLen == 0 then 1 else minLen) as real;
    var i, j := 0, 0;
    while i < |word1| && j < |word2|
      invariant i == j <= minLen
      invariant similarity == AfterSteps(Mismatches(word1, word2, i), step)
    {
      if word1[i] != word2[j] {
        similarity := similarity - step;
      }
      i, j := i + 1, j + 1;
    }
    AfterStepsIsShare(Mismatches(word1, word2, minLen), Divisor(word1, word2) as real);
  }

  /** No mismatch among the first n positions exactly when the first n characters agree. */
  lemma {:induction false} NoMismatchIffSamePrefix(a: string, b: string, n: nat)
    requires n <= |a| && n <= |b|
    ensures Mismatches(a, b, n) == 0 <==> a[..n] == b[..n]
  {
    if n > 0 {
      NoMismatchIffSamePrefix(a, b, n - 1);
      assert a[..n] == a[..n - 1] + [a[n - 1]];
      assert b[..n] == b[..n - 1] + [b[n - 1]];
      if a[..n] == b[..n] {
        assert a[..n][..n - 1] == a[..n - 1] && b[..n][..n - 1] == b[..n - 1];
        assert a[..n][n - 1] == a[n - 1] && b[..n][n - 1] == b[n - 1];
      }
    }
  }

  /**
   * The score is 1 exactly when one word is a prefix of the other: the characters
   * beyond the shorter length are never compared. In particular a word scores 1
   * against itself and "" scores 1 against "".
   */
  lemma ScoreOneIffPrefix(a: string, b: string)
    ensures Score(a, b) == 1.0 <==> (a <= b || b <= a)
  {
    var m := MinLen(a, b);
    NoMismatchIffSamePrefix(a, b, m);
    var k := Mismatches(a, b, m) as real;
    var d := Divisor(a, b) as real;
    assert Score(a, b) == 1.0 <==> k / d == 0.0;
    assert k / d == 0.0 <==> k == 0.0;
    if |a| <= |b| {
      assert a[..m] == a;
      assert a <= b <==> a == b[..m];
      assert b <= a ==> a == b;
    } else {
      assert b[..m] == b;
      assert b <= a <==> b == a[..m];
    }
  }

  /** The position-wise mismatch count does not depend on the order of the words. */
  lemma {:induction false} MismatchesSymmetric(a: string, b: string, n: nat)
    requires n <= |a| && n <= |b|
    ensures Mismatches(a, b, n) == Mismatches(b, a, n)
  {
    if n > 0 {
      MismatchesSymmetric(a, b, n - 1);
    }
  }

  /** `similarity(a, b) == similarity(b, a)`. */
  lemma ScoreSymmetric(a: string, b: string)
    ensures Score(a, b) == Score(b, a)
  {
    MismatchesSymmetric(a, b, MinLen(a, b));
  }

  /** Characters appended after position n do not change the mismatches before n. */
  lemma {:induction false} MismatchesIgnoreTail(a: string, b: string, t: string, n: nat)
    requires n <= |a| && n <= |b|
    ensures Mismatches(a, b + t, n) == Mismatches(a, b, n)
  {
    if n > 0 {
      MismatchesIgnoreTail(a, b, t, n - 1);
      assert (b + t)[n - 1] == b[n - 1];
    }
  }

  /**
   * Lengthening the longer word never changes the score: its characters beyond the
   * shorter length are never looked at.
   */
  lemma ScoreIgnoresTail(a: string, b: string, t: string)
    requires |a| <= |b|
    ensures Score(a, b + t) == Score(a, b)
  {
    MismatchesIgnoreTail(a, b, t, |a|);
  }

  /**
   * The regression values recorded beside `similarity`, exactly (the recorded 0.4 and
   * 0.846... carry floating-point rounding).
   */
  lemma RegressionValues()
    ensures Score("speak", "spozc") == 0.4
    ensures Score("pre-eminent", "pre-eminently") == 1.0
    ensures Score("cooks", "cooking") == 0.8
  {
    ScoreOneIffPrefix("pre-eminent", "pre-eminently");
    assert "pre-eminent" <= "pre-eminently";
    assert Mismatches("cooks", "cooking", 5) == 1;
    assert Mismatches("speak", "spozc", 5) == 3;
  }

  /** A shared prefix of eleven characters, then two mismatches out of thirteen. */
  lemma RegressionValueLonger()
    ensures Score("pre-eminentitious", "pre-eminently") == 11.0 / 13.0
  {
    var a, b := "pre-eminentitious", "pre-eminently";
    assert Mismatches(a, b, 11) == 0 by {
      NoMismatchIffSamePrefix(a, b, 11);
      assert a[..11] == b[..11];
    }
    assert Mismatches(a, b, 13) == 2;
  }

  /** The threshold `isSimilar` uses: the given one, or 0.6 when it is falsy (absent or 0). */
  function Threshold(threshold: Option<real>): (t: real)
    ensures threshold.None? || threshold.value == 0.0 ==> t == 0.6
    ensures threshold.Some? && threshold.value != 0.0 ==> t == threshold.value
  {
    if threshold.None? || threshold.value == 0.0 then 0.6 else threshold.value
  }

  /**
   * `isSimilar(word1, word2, threshold)`: the score strictly exceeds the threshold. As the
   * score lies in [0, 1], a threshold of 1 or more admits no pair and a negative one admits
   * every pair.
   */
  predicate IsSimilar(word1: string, word2: string, threshold: Option<real>)
    ensures Threshold(threshold) >= 1.0 ==> !IsSimilar(word1, word2, threshold)
    ensures Threshold(threshold) < 0.0 ==> IsSimilar(word1, word2, threshold)
  {
    Score(word1, word2) > Threshold(threshold)
  }

  /**
   * With the default threshold, two words are similar exactly when fewer than two
   * fifths of the compared positions mismatch.
   */
  lemma DefaultSimilarIff(a: string, b: string)
    ensures IsSimilar(a, b, None) <==> 5 * Mismatches(a, b, MinLen(a, b)) < 2 * Divisor(a, b)
  {
    var k := Mismatches(a, b, MinLen(a, b)) as real;
    var d := Divisor(a, b) as real;
    assert Score(a, b) == 1.0 - k / d;
    BelowShare(k, d, 0.4);
  }

  /** k / d < c exactly when k < c * d, for a positive d. */
  lemma BelowShare(k: real, d: real, c: real)
    requires d > 0.0
    ensures k / d < c <==> k < c * d
  {
    assert k / d * d == k;
  }

  /** Words one of which is a prefix of the other are similar under any threshold below 1. */
  lemma PrefixIsSimilar(a: string, b: string, threshold: Option<real>)
    requires a <= b || b <= a
    requires Threshold(threshold) < 1.0
    ensures IsSimilar(a, b, threshold)
  {
    ScoreOneIffPrefix(a, b);
  }
}
