/**
 * The decision `correctWord` makes once the autocomplete lookup has answered: reject
 * when there is no suggestion list, otherwise pick the best match among the suggested
 * words. The lookup itself (an HTTP request and an HTML parse) is an input here.
 */
module Corrector {
  import opened Wrappers
  import opened Scorer
  import opened BestMatch

  /** One autocomplete suggestion as the HTML mapper builds it (attributes as strings). */
  datatype Suggestion = Suggestion(
    lang: string, synsetid: string, word: string, frequency: string, definition: string)

  /** The rejection reason of `correctWord`. */
  const NotFound: string := "not found in Vocabulary.com"

  /** The `suggestions.map(w => w.word)` step. */
  function SuggestedWords(suggestions: seq<Suggestion>): (ws: seq<string>)
    ensures |ws| == |suggestions|
    ensures forall i :: 0 <= i < |ws| ==> ws[i] == suggestions[i].word
  {
    seq(|suggestions|, i requires 0 <= i < |suggestions| => suggestions[i].word)
  }

  /**
   * `correctWord(word)` after the lookup: rejects only when the suggestion list is
   * absent; otherwise resolves to the word or to one of the suggested words.
   */
  function CorrectWord(suggestions: Option<seq<Suggestion>>, word: string): (r: Result<string, string>)
    ensures r.Failure? <==> suggestions.None?
    ensures r.Failure? ==> r.error == NotFound
    ensures r.Success? ==>
              r.value == word ||
              exists i :: 0 <= i < |suggestions.value| && suggestions.value[i].word == r.value
  {
    match suggestions
    case None => Failure(NotFound)
    case Some(s) => Success(GetSimilarFrom(SuggestedWords(s), word))
  }

  /** An empty suggestion list is not a rejection: the word comes back unchanged. */
  lemma EmptySuggestionsKeepWord(word: string)
    ensures CorrectWord(Some([]), word) == Success(word)
  {
  }

  /**
   * When a suggestion list is present, the word is kept if no suggestion scores above
   * 0.6, and otherwise replaced by the earliest suggestion of the highest score.
   */
  lemma CorrectWordSpec(suggestions: seq<Suggestion>, word: string)
    ensures var ws := SuggestedWords(suggestions);
            var r := CorrectWord(Some(suggestions), word);
            ((forall i :: 0 <= i < |ws| ==> Score(ws[i], word) <= 0.6) ==> r == Success(word)) &&
            ((exists i :: 0 <= i < |ws| && Score(ws[i], word) > 0.6) ==>
               exists k :: IsEarliestBest(ws, word, k) && Score(ws[k], word) > 0.6 &&
                           r == Success(suggestions[k].word))
  {
    GetSimilarFromSpec(SuggestedWords(suggestions), word);
  }
}
