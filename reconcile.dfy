/**
 * The bulk reconciliation of VocAPI (`correctWords`) once the grab endpoint has
 * answered: the requested entries are walked in order with a second cursor into the
 * grabbed words; entries the service did not find are skipped, every other entry is
 * paired positionally with the next grabbed word, and the walk stops when either list
 * runs out.
 */
module Reconcile {
  import opened Wrappers

  /** A requested word with the user's annotations (all optional). */
  datatype WordEntry = WordEntry(
    word: string,
    description: Option<string>,
    example: Option<string>,
    sentence: Option<string>,
    location: Option<string>,
    locationString: Option<string>,
    title: Option<string>,
    synsetid: Option<string>)

  /** A word recognised by the grab endpoint. */
  datatype GrabbedWord = GrabbedWord(word: string, def: string, diff: int, freq: real)

  /** The answer of the grab endpoint; `notfound` and `notlearnable` may be missing. */
  datatype GrabResult = GrabResult(
    words: seq<GrabbedWord>,
    notfound: Option<seq<string>>,
    notlearnable: Option<seq<string>>)

  /** A grabbed word carrying the description and example of the entry it was paired with. */
  datatype MergedWord = MergedWord(word: string, description: Option<string>, example: Option<string>)

  /** What `correctWords` resolves to. */
  datatype Reconciliation = Reconciliation(
    words: seq<MergedWord>,
    notfound: seq<string>,
    notlearnable: seq<string>,
    corrected: seq<WordEntry>)

  /** The `merge(original, grab)` helper: the grabbed word with the entry's annotations. */
  function Merge(original: WordEntry, grab: string): (m: MergedWord)
    ensures m.word == grab
    ensures m.description == original.description && m.example == original.example
  {
    MergedWord(grab, original.description, original.example)
  }

  /** The `result.words.map(w => w.word)` step. */
  function GrabbedTexts(words: seq<GrabbedWord>): (ws: seq<string>)
    ensures |ws| == |words|
    ensures forall i :: 0 <= i < |ws| ==> ws[i] == words[i].word
  {
    seq(|words|, i requires 0 <= i < |words| => words[i].word)
  }

  /** The entries that are paired with a grabbed word: those not listed in `notfound`, in order. */
  function Survivors(entries: seq<WordEntry>, notfound: seq<string>): (r: seq<WordEntry>)
    ensures |r| <= |entries|
  {
    if entries == [] then []
    else
      var last := entries[|entries| - 1];
      Survivors(entries[..|entries| - 1], notfound) + (if last.word in notfound then [] else [last])
  }

  /** The entries of `paired` whose word differs from the grabbed word at the same position. */
  function Corrections(paired: seq<WordEntry>, grabbed: seq<string>): (r: seq<WordEntry>)
    requires |paired| <= |grabbed|
    ensures |r| <= |paired|
    ensures forall e :: e in r ==> e in paired
  {
    if paired == [] then []
    else
      var n := |paired| - 1;
      Corrections(paired[..n], grabbed) + (if paired[n].word != grabbed[n] then [paired[n]] else [])
  }

  function Min(x: nat, y: nat): nat {
    if x < y then x else y
  }

  /** The merged words of entries paired position by position with grabbed words. */
  function MergeAll(paired: seq<WordEntry>, grabbed: seq<string>): (ms: seq<MergedWord>)
    requires |paired| <= |grabbed|
    ensures |ms| == |paired|
    ensures forall k :: 0 <= k < |ms| ==> ms[k].word == grabbed[k]
    ensures forall k :: 0 <= k < |ms| ==> ms[k] == Merge(paired[k], grabbed[k])
  {
    seq(|paired|, k requires 0 <= k < |paired| => Merge(paired[k], grabbed[k]))
  }

  /** An entry whose word is listed as not found adds no survivor. */
  lemma SurvivorsSkip(entries: seq<WordEntry>, i: nat, notfound: seq<string>)
    requires i < |entries| && entries[i].word in notfound
    ensures Survivors(entries[..i + 1], notfound) == Survivors(entries[..i], notfound)
  {
    assert entries[..i + 1][..i] == entries[..i];
  }

  /** Any other entry survives, after the survivors before it. */
  lemma SurvivorsKeep(entries: seq<WordEntry>, i: nat, notfound: seq<string>)
    requires i < |entries| && entries[i].word !in notfound
    ensures Survivors(entries[..i + 1], notfound) == Survivors(entries[..i], notfound) + [entries[i]]
  {
    assert entries[..i + 1][..i] == entries[..i];
  }

  /** The survivors of a prefix of the entries are a prefix of the survivors of all of them. */
  lemma {:induction false} SurvivorsOfPrefix(entries: seq<WordEntry>, i: nat, notfound: seq<string>)
    requires i <= |entries|
    ensures Survivors(entries[..i], notfound) <= Survivors(entries, notfound)
    decreases |entries|
  {
    if i < |entries| {
      var init := entries[..|entries| - 1];
      assert init[..i] == entries[..i];
      SurvivorsOfPrefix(init, i, notfound);
    } else {
      assert entries[..i] == entries;
    }
  }

  /** The word fields of merged words. */
  function WordsOf(ms: seq<MergedWord>): (ws: seq<string>)
    ensures |ws| == |ms|
    ensures forall k :: 0 <= k < |ms| ==> ws[k] == ms[k].word
  {
    seq(|ms|, k requires 0 <= k < |ms| => ms[k].word)
  }

  /** The words of the merged list are exactly the first grabbed words, in grab order. */
  lemma MergedWordsArePrefix(paired: seq<WordEntry>, grabbed: seq<string>)
    requires |paired| <= |grabbed|
    ensures WordsOf(MergeAll(paired, grabbed)) == grabbed[..|paired|]
  {
  }

  /** One more pair merged. */
  lemma MergeAllStep(paired: seq<WordEntry>, x: WordEntry, grabbed: seq<string>)
    requires |paired| < |grabbed|
    ensures MergeAll(paired + [x], grabbed) == MergeAll(paired, grabbed) + [Merge(x, grabbed[|paired|])]
  {
  }

  /** One more pair: it is a correction when the texts differ. */
  lemma CorrectionsStep(paired: seq<WordEntry>, x: WordEntry, grabbed: seq<string>)
    requires |paired| < |grabbed|
    ensures Corrections(paired + [x], grabbed) ==
              Corrections(paired, grabbed) + (if x.word != grabbed[|paired|] then [x] else [])
  {
  }

  /** When the walk stops, the entries paired so far are the first survivors, as many as can be paired. */
  lemma WalkEnd(words: seq<WordEntry>, notfound: seq<string>, grabbed: seq<string>, i: nat, paired: seq<WordEntry>)
    requires i <= |words| && paired == Survivors(words[..i], notfound) && |paired| <= |grabbed|
    requires i == |words| || |paired| == |grabbed|
    ensures |paired| == Min(|Survivors(words, notfound)|, |grabbed|)
    ensures Survivors(words, notfound)[..|paired|] == paired
  {
    SurvivorsOfPrefix(words, i, notfound);
    if i == |words| {
      assert words[..i] == words;
    }
  }

  /**
   * `correctWords(words)` after the grab: pairs the surviving entries with the grabbed
   * words position by position, up to the shorter of the two lists.
   */
  method CorrectWords(words: seq<WordEntry>, result: GrabResult) returns (r: Reconciliation)
    ensures var surv := Survivors(words, result.notfound.GetOr([]));
            |r.words| == Min(|surv|, |result.words|) &&
            r.words == MergeAll(surv[..|r.words|], GrabbedTexts(result.words)) &&
            r.corrected == Corrections(surv[..|r.words|], GrabbedTexts(result.words))
    ensures r.notfound == result.notfound.GetOr([])
    ensures r.notlearnable == result.notlearnable.GetOr([])
  {
    var resultWords := GrabbedTexts(result.words);
    var mergeResult: seq<MergedWord> := [];
    var corrected: seq<WordEntry> := [];
    var notfound := result.notfound.GetOr([]);
    var notlearnable := result.notlearnable.GetOr([]);
    var resultIndex := 0;
    var i := 0;
    ghost var paired: seq<WordEntry> := [];
    while i < |words| && resultIndex < |resultWords|
      invariant 0 <= i <= |words|
      invariant paired == Survivors(words[..i], notfound)
      invariant resultIndex == |paired| <= |resultWords|
      invariant mergeResult == MergeAll(paired, resultWords)
      invariant corrected == Corrections(paired, resultWords)
    {
      var original := words[i];
      if original.word !in notfound {
        SurvivorsKeep(words, i, notfound);
        CorrectionsStep(paired, original, resultWords);
        MergeAllStep(paired, original, resultWords);
        mergeResult := mergeResult + [Merge(original, resultWords[resultIndex])];
        if original.word != resultWords[resultIndex] {
          corrected := corrected + [original];
        }
        resultIndex := resultIndex + 1;
        paired := paired + [original];
      } else {
        SurvivorsSkip(words, i, notfound);
      }
      i := i + 1;
    }
    WalkEnd(words, notfound, resultWords, i, paired);
    r := Reconciliation(mergeResult, notfound, notlearnable, corrected);
  }

  /** Without not-found entries every entry survives, in order. */
  lemma {:induction false} SurvivorsWithoutNotFound(entries: seq<WordEntry>, notfound: seq<string>)
    requires forall i :: 0 <= i < |entries| ==> entries[i].word !in notfound
    ensures Survivors(entries, notfound) == entries
  {
    if entries != [] {
      var init := entries[..|entries| - 1];
      SurvivorsWithoutNotFound(init, notfound);
      assert init + [entries[|entries| - 1]] == entries;
    }
  }

  /** Every survivor is one of the entries, and its word is not listed as not found. */
  lemma {:induction false} SurvivorsAreFound(entries: seq<WordEntry>, notfound: seq<string>, e: WordEntry)
    requires e in Survivors(entries, notfound)
    ensures e in entries && e.word !in notfound
  {
    var init := entries[..|entries| - 1];
    if e in Survivors(init, notfound) {
      SurvivorsAreFound(init, notfound, e);
    }
  }

  /** No entry is reported as corrected exactly when every paired entry already has the grabbed text. */
  lemma {:induction false} CorrectionsEmptyIff(paired: seq<WordEntry>, grabbed: seq<string>)
    requires |paired| <= |grabbed|
    ensures Corrections(paired, grabbed) == [] <==>
              forall k :: 0 <= k < |paired| ==> paired[k].word == grabbed[k]
  {
    if paired != [] {
      var n := |paired| - 1;
      CorrectionsEmptyIff(paired[..n], grabbed);
      assert forall k :: 0 <= k < n ==> paired[..n][k] == paired[k];
    }
  }

  /** Each corrected entry was paired at some position with a grabbed word different from its own. */
  lemma {:induction false} CorrectionsDiffer(paired: seq<WordEntry>, grabbed: seq<string>, e: WordEntry)
    requires |paired| <= |grabbed|
    requires e in Corrections(paired, grabbed)
    ensures exists k :: 0 <= k < |paired| && paired[k] == e && e.word != grabbed[k]
  {
    var n := |paired| - 1;
    if e in Corrections(paired[..n], grabbed) {
      CorrectionsDiffer(paired[..n], grabbed, e);
      var k :| 0 <= k < n && paired[..n][k] == e && e.word != grabbed[k];
      assert paired[k] == e;
    } else {
      assert paired[n] == e && e.word != grabbed[n];
    }
  }

  /** Every paired entry whose word differs from its grabbed word is reported as corrected. */
  lemma {:induction false} DifferingAreCorrected(paired: seq<WordEntry>, grabbed: seq<string>, k: nat)
    requires |paired| <= |grabbed|
    requires k < |paired| && paired[k].word != grabbed[k]
    ensures paired[k] in Corrections(paired, grabbed)
  {
    var n := |paired| - 1;
    if k < n {
      DifferingAreCorrected(paired[..n], grabbed, k);
    }
  }
}
