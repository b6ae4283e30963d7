/**
 * The best-match selector of VocAPI (`getSimilarFrom`): keep the candidates similar to
 * the word, then fold them left to right, replacing the running best only on a strict
 * improvement of the score, starting from the word itself with score 0.
 */
module BestMatch {
  import opened Wrappers
  import opened Scorer

  /** The `arr.filter(w => isSimilar(w, word))` step: the similar candidates, in order. */
  function SimilarOnly(arr: seq<string>, word: string): (r: seq<string>)
    ensures |r| <= |arr|
    ensures forall w :: w in r <==> w in arr && IsSimilar(w, word, None)
  {
    if arr == [] then []
    else (if IsSimilar(arr[0], word, None) then [arr[0]] else []) + SimilarOnly(arr[1..], word)
  }

  /** The accumulator of the fold: `{word, similarity}`. */
  datatype Best = Best(word: string, similarity: real)

  /** One step of the reducer: the current candidate wins only on a strictly higher score. */
  function KeepBest(acc: Best, cur: string, word: string): (r: Best)
    ensures r == acc || r == Best(cur, Score(cur, word))
    ensures r.similarity >= acc.similarity
  {
    var curSimil := Score(cur, word);
    if acc.similarity < curSimil then Best(cur, curSimil) else acc
  }

  /** The `reduce` step, folding `s` from the left into `acc`. */
  function Reduce(s: seq<string>, word: string, acc: Best): (r: Best)
    ensures r == acc || (r.word in s && r.similarity == Score(r.word, word))
    ensures r.similarity >= acc.similarity
  {
    if s == [] then acc else Reduce(s[1..], word, KeepBest(acc, s[0], word))
  }

  /** `getSimilarFrom(arr, word)`: the result is the word itself or one of the candidates. */
  function GetSimilarFrom(arr: seq<string>, word: string): (r: string)
    ensures r == word || r in arr
  {
    Reduce(SimilarOnly(arr, word), word, Best(word, 0.0)).word
  }

  /** The larger of two scores. */
  function Max(x: real, y: real): real {
    if x < y then y else x
  }

  /** `arr[k]` has the highest score against `word`, and no earlier candidate ties with it. */
  ghost predicate IsEarliestBest(arr: seq<string>, word: string, k: int) {
    0 <= k < |arr| &&
    (forall j :: 0 <= j < |arr| ==> Score(arr[j], word) <= Score(arr[k], word)) &&
    (forall j :: 0 <= j < k ==> Score(arr[j], word) < Score(arr[k], word))
  }

  /**
   * When no candidate scores above both the accumulator and the default threshold,
   * filtering then folding leaves the accumulator as it was.
   */
  lemma {:induction false} SelectKeepsAcc(arr: seq<string>, word: string, acc: Best)
    requires forall i :: 0 <= i < |arr| ==> Score(arr[i], word) <= Max(acc.similarity, 0.6)
    ensures Reduce(SimilarOnly(arr, word), word, acc) == acc
  {
    if arr != [] {
      SelectKeepsAcc(arr[1..], word, acc);
      var f := SimilarOnly(arr[1..], word);
      if IsSimilar(arr[0], word, None) {
        assert SimilarOnly(arr, word) == [arr[0]] + f;
        assert ([arr[0]] + f)[1..] == f;
        assert KeepBest(acc, arr[0], word) == acc;
      } else {
        assert SimilarOnly(arr, word) == f;
      }
    }
  }

  /** The earliest best of `arr[1..]` stays the earliest best of `arr` when `arr[0]` scores lower. */
  lemma EarliestBestShift(arr: seq<string>, word: string, k: int)
    requires arr != [] && IsEarliestBest(arr[1..], word, k)
    requires Score(arr[0], word) < Score(arr[k + 1], word)
    ensures IsEarliestBest(arr, word, k + 1)
  {
  }

  /** `arr[0]` is the earliest best when nothing after it scores higher. */
  lemma EarliestBestFirst(arr: seq<string>, word: string)
    requires arr != []
    requires forall j :: 0 <= j < |arr| - 1 ==> Score(arr[1..][j], word) <= Score(arr[0], word)
    ensures IsEarliestBest(arr, word, 0)
  {
    forall j | 0 < j < |arr|
      ensures Score(arr[j], word) <= Score(arr[0], word)
    {
      assert arr[j] == arr[1..][j - 1];
    }
  }

  /**
   * When some candidate scores above both the accumulator and the default threshold,
   * filtering then folding picks the earliest candidate of the highest score.
   */
  lemma {:induction false} SelectPicksEarliestBest(arr: seq<string>, word: string, acc: Best) returns (k: int)
    requires exists i :: 0 <= i < |arr| && Score(arr[i], word) > Max(acc.similarity, 0.6)
    ensures IsEarliestBest(arr, word, k)
    ensures Score(arr[k], word) > Max(acc.similarity, 0.6)
    ensures Reduce(SimilarOnly(arr, word), word, acc).word == arr[k]
  {
    var i :| 0 <= i < |arr| && Score(arr[i], word) > Max(acc.similarity, 0.6);
    var rest := arr[1..];
    var f := SimilarOnly(rest, word);
    var s0 := Score(arr[0], word);
    if s0 > Max(acc.similarity, 0.6) {
      var next := Best(arr[0], s0);
      assert Reduce(SimilarOnly(arr, word), word, acc) == Reduce(f, word, next) by {
        assert SimilarOnly(arr, word) == [arr[0]] + f;
        assert ([arr[0]] + f)[1..] == f;
        assert KeepBest(acc, arr[0], word) == next;
      }
      if i' :| 0 <= i' < |rest| && Score(rest[i'], word) > Max(s0, 0.6) {
        var k' := SelectPicksEarliestBest(rest, word, next);
        EarliestBestShift(arr, word, k');
        k := k' + 1;
      } else {
        SelectKeepsAcc(rest, word, next);
        EarliestBestFirst(arr, word);
        k := 0;
      }
    } else {
      assert i != 0 && rest[i - 1] == arr[i];
      assert Reduce(SimilarOnly(arr, word), word, acc) == Reduce(f, word, acc) by {
        if IsSimilar(arr[0], word, None) {
          assert SimilarOnly(arr, word) == [arr[0]] + f;
          assert ([arr[0]] + f)[1..] == f;
          assert KeepBest(acc, arr[0], word) == acc;
        } else {
          assert SimilarOnly(arr, word) == f;
        }
      }
      var k' := SelectPicksEarliestBest(rest, word, acc);
      EarliestBestShift(arr, word, k');
      k := k' + 1;
    }
  }

  /**
   * What `getSimilarFrom(arr, word)` returns: `word` itself when no candidate scores
   * strictly above 0.6; otherwise the earliest candidate of the highest score.
   */
  lemma GetSimilarFromSpec(arr: seq<string>, word: string)
    ensures (forall i :: 0 <= i < |arr| ==> Score(arr[i], word) <= 0.6) ==>
              GetSimilarFrom(arr, word) == word
    ensures (exists i :: 0 <= i < |arr| && Score(arr[i], word) > 0.6) ==>
              exists k :: IsEarliestBest(arr, word, k) && Score(arr[k], word) > 0.6 &&
                          GetSimilarFrom(arr, word) == arr[k]
  {
    var acc := Best(word, 0.0);
    assert Max(acc.similarity, 0.6) == 0.6;
    if exists i :: 0 <= i < |arr| && Score(arr[i], word) > 0.6 {
      var k := SelectPicksEarliestBest(arr, word, acc);
    } else {
      SelectKeepsAcc(arr, word, acc);
    }
  }

  /**
   * When the word itself is among the candidates, the result scores 1 against it, so it
   * is the word or a prefix-related candidate (one of the two a prefix of the other),
   * and the earliest such candidate wins.
   */
  lemma ExactCandidateGivesPrefixRelated(arr: seq<string>, word: string)
    requires word in arr
    ensures var r := GetSimilarFrom(arr, word); r <= word || word <= r
  {
    var i :| 0 <= i < |arr| && arr[i] == word;
    ScoreOneIffPrefix(word, word);
    GetSimilarFromSpec(arr, word);
    var k :| IsEarliestBest(arr, word, k) && Score(arr[k], word) > 0.6 &&
             GetSimilarFrom(arr, word) == arr[k];
    assert Score(arr[i], word) == 1.0;
    ScoreOneIffPrefix(arr[k], word);
  }

  /** A correctly spelt word loses to an earlier candidate that is its prefix. */
  lemma PrefixCandidateWins()
    ensures GetSimilarFrom(["cook", "cooks"], "cooks") == "cook"
  {
    var arr := ["cook", "cooks"];
    ScoreOneIffPrefix("cook", "cooks");
    ScoreOneIffPrefix("cooks", "cooks");
    GetSimilarFromSpec(arr, "cooks");
    var k :| IsEarliestBest(arr, "cooks", k) && Score(arr[k], "cooks") > 0.6 &&
             GetSimilarFrom(arr, "cooks") == arr[k];
    assert k == 0;
  }

  /** With no candidates the word is returned unchanged. */
  lemma NoCandidates(word: string)
    ensures GetSimilarFrom([], word) == word
  {
  }
}
