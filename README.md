# VocAPI word correction and list reconciliation in Dafny

This project models the word-correction and list-reconciliation logic of `VocAPI`, a
JavaScript client for the Vocabulary.com word lists (`vocabulary-api.js`). The network
requests, the DOM scraping and the clock are not part of the model. What the core does
once their results are in hand is modelled and proved:

- **Scorer** (`scorer.dfy`) covers `similarity` and `isSimilar`.
  - Two words are compared position by position, up to the length of the shorter one.
  - Each mismatch subtracts `1/minLen` from 1, and `minLen` counts as 1 when it is 0.
  - `isSimilar` holds when the score is strictly above the threshold, which is 0.6 when the given threshold is missing or 0.
  - `Similarity` is the source's `while` loop, proved equal to the closed form `Score`.
  - The lemmas prove the range [0, 1], the prefix characterisation of a perfect score, symmetry, and the source's own regression values.
- **BestMatch** (`best_match.dfy`) covers `getSimilarFrom`.
  - It is a filter through `isSimilar` followed by a left fold that replaces its accumulator only on a strict improvement.
  - The fold starts from the input word with similarity 0.
  - `GetSimilarFromSpec` proves that it returns the input word when no candidate scores above 0.6, and otherwise the earliest candidate of maximal score.
- **Corrector** (`correct_word.dfy`) covers what `correctWord` does after the autocomplete lookup.
  - A missing suggestion list is the rejection "not found in Vocabulary.com".
  - A present list, even an empty one, resolves through `getSimilarFrom`.
- **Reconcile** (`reconcile.dfy`) covers what `correctWords` does after the grab request.
  - The requested entries are walked with a second cursor into the grabbed words.
  - Entries listed as not found are skipped.
  - Every other entry is paired with the next grabbed word and merged onto it.
  - The walk stops when either list runs out.
  - `CorrectWords` keeps the source's loop. It is proved against specification functions (`Survivors`, `MergeAll`, `Corrections`), and lemmas state what those mean.
- **WordMapper** (`word_mapper.dfy`) covers `wordMapper`, which turns an entry into the shape the service stores. The options and the current date and time are inputs.
  - In "comment" mode, which also applies when there are no options, a dated line is appended to the description.
  - In "src-lit" mode, a `LIT` source is attached to the example.
- **FormData** (`form_data.dfy`) covers `getFormData`.
  - Key/value pairs become `key=encode(value)` joined by `&`.
  - The encoder is a parameter.
  - A splitting function is the partner that recovers the pairs.
- **Strings** (`strings.dfy`) holds joining and cutting at a separator character. The form data uses it with `&`, and the comment-mode date stamp with a space.

JavaScript truthiness of optional string fields is written out as `Truthy`: a missing field
and the empty string are both falsy. Scores are exact rationals (`real`).

Where the code's own comments and the code differ, the model follows the code:

- `correctWord` tests `if (suggestions)`, and an empty array is truthy in JavaScript. Its doc comment says it rejects when no word was found, but an empty suggestion list resolves to the input word (`Corrector.EmptySuggestionsKeepWord`).
- In "src-lit" mode the source's `href` is taken from the entry's `locationString` field, as the code does, not from `location`.

## Model

| member | source | states |
|---|---|---|
| Scorer.MinLen | vocabulary-api.js:374 | the compared length is at most either word's length and equals one of them |
| Scorer.Mismatches | vocabulary-api.js:377-382 | the number of differing positions among the first n is at most n |
| Scorer.Divisor | vocabulary-api.js:374-375 | the step's divisor is at least 1 and at least the shorter length |
| Scorer.Score | vocabulary-api.js:357-384 | the similarity of any two words lies in [0, 1] |
| Scorer.AfterStepsIsShare | vocabulary-api.js:373-383 | subtracting the step 1/d k times from 1 leaves 1 - k/d |
| Scorer.Similarity | vocabulary-api.js:357-384 | the loop's result equals 1 - (mismatches below the shorter length) / max(shorter length, 1) |
| Scorer.NoMismatchIffSamePrefix | vocabulary-api.js:377-380 | no mismatch among the first n positions exactly when the first n characters agree |
| Scorer.ScoreOneIffPrefix | vocabulary-api.js:354-384 | the score is 1 exactly when one word is a prefix of the other (so `similarity(w, w)` and `similarity("", "")` are 1) |
| Scorer.MismatchesSymmetric | vocabulary-api.js:377-382 | mismatch counting does not depend on argument order |
| Scorer.ScoreSymmetric | vocabulary-api.js:357-384 | `similarity(a, b) == similarity(b, a)` |
| Scorer.MismatchesIgnoreTail | vocabulary-api.js:377 | positions beyond the compared range never affect the mismatch count |
| Scorer.ScoreIgnoresTail | vocabulary-api.js:374-382 | extending the longer word does not change the score |
| Scorer.RegressionValues | vocabulary-api.js:358-367 | "speak"/"spozc" scores 0.4, "pre-eminent"/"pre-eminently" 1, "cooks"/"cooking" 0.8 |
| Scorer.RegressionValueLonger | vocabulary-api.js:363-364 | "pre-eminentitious"/"pre-eminently" scores 11/13 (0.846…) |
| Scorer.Threshold | vocabulary-api.js:387 | a missing or zero threshold means 0.6; any other is used as given |
| Scorer.IsSimilar | vocabulary-api.js:386-388 | as the score lies in [0, 1], a threshold of 1 or more makes no pair similar and a negative one makes every pair similar (the default case is characterised by `Scorer.DefaultSimilarIff`, the prefix case by `Scorer.PrefixIsSimilar`) |
| Scorer.DefaultSimilarIff | vocabulary-api.js:386-388 | with the default threshold, two words are similar exactly when 5 × mismatches < 2 × divisor |
| Scorer.PrefixIsSimilar | vocabulary-api.js:386-388 | words one of which is a prefix of the other are similar under any threshold below 1 |
| BestMatch.SimilarOnly | vocabulary-api.js:401-402 | the filter keeps exactly the candidates that are similar to the word |
| BestMatch.KeepBest | vocabulary-api.js:404-408 | one reduce step keeps the accumulator or takes the current candidate with its score, and never lowers the best score |
| BestMatch.Reduce | vocabulary-api.js:404-409 | the fold returns its seed or a scanned candidate with its true score, never with a lower score than the seed |
| BestMatch.GetSimilarFrom | vocabulary-api.js:400-410 | the result is the input word or one of the candidates |
| BestMatch.SelectKeepsAcc | vocabulary-api.js:401-409 | when no candidate beats both the accumulator and 0.6, filter-then-reduce returns the accumulator |
| BestMatch.EarliestBestShift | vocabulary-api.js:404-408 | the earliest best of the tail is the earliest best of the list when the head scores strictly lower |
| BestMatch.EarliestBestFirst | vocabulary-api.js:404-408 | the head is the earliest best when no later candidate scores higher |
| BestMatch.SelectPicksEarliestBest | vocabulary-api.js:401-409 | when some candidate beats both the accumulator and 0.6, filter-then-reduce returns the earliest candidate of maximal score |
| BestMatch.GetSimilarFromSpec | vocabulary-api.js:386-410 | no candidate above 0.6 gives the input word; otherwise the result is the earliest candidate of maximal score, and that score is above 0.6 |
| BestMatch.ExactCandidateGivesPrefixRelated | vocabulary-api.js:400-410 | if the word itself is a candidate, the result is a prefix of the word or has the word as a prefix |
| BestMatch.PrefixCandidateWins | vocabulary-api.js:400-410 | ties on a perfect score go to the earlier candidate: "cook" beats "cooks" for "cooks" |
| BestMatch.NoCandidates | vocabulary-api.js:400-410 | an empty candidate list gives back the word |
| Corrector.SuggestedWords | vocabulary-api.js:343 | the extracted words are the suggestions' `word` fields, in order |
| Corrector.CorrectWord | vocabulary-api.js:340-347 | rejection exactly when the suggestion list is missing, with the message "not found in Vocabulary.com"; otherwise the word or one of the suggested words |
| Corrector.EmptySuggestionsKeepWord | vocabulary-api.js:342-343 | an empty suggestion list resolves to the input word unchanged |
| Corrector.CorrectWordSpec | vocabulary-api.js:340-347 | a present list resolves to the word when no suggestion scores above 0.6, and otherwise to the earliest best-scoring suggestion |
| Reconcile.Merge | vocabulary-api.js:431-437 | the merged item has the grabbed word and the original's description and example |
| Reconcile.GrabbedTexts | vocabulary-api.js:439 | the grabbed texts are the grab result's `word` fields, in order |
| Reconcile.Survivors | vocabulary-api.js:446-450 | the entries that are not skipped are no more than the entries |
| Reconcile.Corrections | vocabulary-api.js:460-462 | the corrected entries are no more than, and drawn from, the paired entries |
| Reconcile.MergeAll | vocabulary-api.js:459 | the k-th merged item is the k-th paired entry merged with the k-th grabbed word |
| Reconcile.SurvivorsSkip | vocabulary-api.js:448-450 | an entry listed as not found adds nothing |
| Reconcile.SurvivorsKeep | vocabulary-api.js:446-463 | any other entry is paired next, after those before it |
| Reconcile.SurvivorsOfPrefix | vocabulary-api.js:446 | walking part of the entries pairs a prefix of what walking all of them would |
| Reconcile.MergedWordsArePrefix | vocabulary-api.js:439-463 | the word fields of the output are exactly a prefix of the grabbed words, in grab order |
| Reconcile.MergeAllStep | vocabulary-api.js:459 | pairing one more entry appends exactly its merge with the next grabbed word |
| Reconcile.CorrectionsStep | vocabulary-api.js:460-462 | pairing one more entry appends it to `corrected` exactly when its word differs from its grabbed word |
| Reconcile.WalkEnd | vocabulary-api.js:446 | when the loop stops, the entries paired are the first min(survivors, grabbed) survivors |
| Reconcile.CorrectWords | vocabulary-api.js:416-472 | the output has min(not-found-free entries, grabbed words) items, each the i-th such entry merged with the i-th grabbed word; `corrected` lists, in order, the paired entries whose word differs from their grabbed word; entries left once the grab list runs out are dropped; `notfound`/`notlearnable` pass through or become empty |
| Reconcile.SurvivorsWithoutNotFound | vocabulary-api.js:446-450 | with nothing listed as not found, every entry is paired, in order |
| Reconcile.SurvivorsAreFound | vocabulary-api.js:448-450 | a paired entry is one of the inputs and is not listed as not found |
| Reconcile.CorrectionsEmptyIff | vocabulary-api.js:460-462 | `corrected` is empty exactly when every paired entry already has its grabbed word |
| Reconcile.CorrectionsDiffer | vocabulary-api.js:460-462 | every corrected entry was paired with a grabbed word different from its own |
| Reconcile.DifferingAreCorrected | vocabulary-api.js:460-462 | every paired entry whose word differs from its grabbed word is corrected |
| WordMapper.DigitChar | vocabulary-api.js:510 | a digit is printed as the character of its value |
| WordMapper.NatToString | vocabulary-api.js:510 | a number prints as at least one decimal digit, a single one exactly when it is below 10 |
| WordMapper.NatToStringRoundTrip | vocabulary-api.js:510 | reading a printed number back gives the number |
| WordMapper.Pad | vocabulary-api.js:496 | a number below 100 pads to exactly two digits |
| WordMapper.PadRoundTrip | vocabulary-api.js:496 | a padded number reads back as itself |
| WordMapper.DecimalValueAppend | vocabulary-api.js:531 | concatenated digit strings read as the first shifted by the second's length plus the second |
| WordMapper.CompactDate | vocabulary-api.js:531 | the src-lit date is all digits |
| WordMapper.CompactDateValue | vocabulary-api.js:531 | the src-lit date reads as year × 10000 + (month + 1) × 100 + day, the month counted from 1 |
| WordMapper.CompactDateLength | vocabulary-api.js:531 | with a four-digit year the src-lit date has eight characters |
| WordMapper.DateString | vocabulary-api.js:507-510 | the comment-mode stamp opens with the weekday's name and closes with the two-digit hours, ':', the two-digit minutes and a full stop |
| WordMapper.StampFieldsSpaceFree | vocabulary-api.js:507-510 | none of the stamp's fields (weekday, day, month, year, time) holds a space |
| WordMapper.SpacedFields | vocabulary-api.js:510 | the stamp's template is its fields joined by single spaces |
| WordMapper.DateStringIsJoin | vocabulary-api.js:510 | the stamp is weekday, day of the month, month name, year, "at" and hh:mm. joined by single spaces |
| WordMapper.DateStringFields | vocabulary-api.js:507-510 | cut at its spaces, the stamp gives back exactly the weekday, day of the month, month name, year, "at" and the time, and the day and year read back as the clock's numbers |
| WordMapper.Annotation | vocabulary-api.js:511-512 | with a location: "Added from URL: ", the URL itself, " on " and the date stamp, in that order; without one: "Added on " followed by the date stamp and nothing else |
| WordMapper.SrcLitMode | vocabulary-api.js:530 | missing options never select "src-lit" mode |
| WordMapper.CommentMode | vocabulary-api.js:506-530 | options without an annotMode select neither mode, and "comment" and "src-lit" never apply together |
| WordMapper.MapWord | vocabulary-api.js:489-556 | always `word` and `lang: "en"`; comment mode: the description with an "Added from URL"/"Added on" line, or that line alone; otherwise the description unchanged; an example from `example` or else `sentence`; a `LIT` source with `locationString`, the compact date and the title or "Untitled source" exactly in src-lit mode with an example; `synsetid` copied when present |
| WordMapper.CommentKeepsDescription | vocabulary-api.js:509-522 | in comment mode the original description stays at the head and the date stamp ends the new description |
| FormData.Pair | vocabulary-api.js:663 | one part is the key, then '=', then the encoded value, and nothing else |
| Strings.Join | vocabulary-api.js:663 | no parts join to the empty string; otherwise the joined string starts with the first part, with no leading separator |
| FormData.Encoded | vocabulary-api.js:659-665 | the form data is empty exactly when there are no fields |
| FormData.Pairs | vocabulary-api.js:663 | one `key=encode(value)` part per field, in key order |
| Strings.JoinSnoc | vocabulary-api.js:663 | appending a part adds the separator and the part, with no separator before the first part |
| FormData.PairsSnoc | vocabulary-api.js:663 | the parts of one more field are the earlier parts plus its own |
| FormData.GetFormData | vocabulary-api.js:659-665 | the loop builds the `&`-joined parts of all fields, in order |
| Strings.IndexOf | vocabulary-api.js:663 | the first position of a separator |
| Strings.Split | vocabulary-api.js:663 | cutting at a separator always gives at least one part |
| Strings.SplitAtFirst | vocabulary-api.js:663 | a part free of the separator, followed by the separator, splits off as the first part |
| Strings.SplitJoin | vocabulary-api.js:663 | cutting the joined parts gives the parts back when none contains the separator |
| FormData.SplitEncoded | vocabulary-api.js:659-665 | when no key or encoded value contains `&`, splitting the form data recovers exactly the `key=value` parts in order |
| FormData.EncodedStart | vocabulary-api.js:659-665 | no fields give the empty string; otherwise the string starts with the first part, with no leading `&` |

## Left out

- HTTP requests are not modelled: `login`, `checkLogin`, `getLists`, `progress`, `setPriority`, `autoComplete`, `getMeanings`, `grabWords`, `startLearning`, `addToList`, `addToNewList`, `deleteList` and `getList` are network I/O. Their results enter the model only as parameters: the suggestion list of `CorrectWord` and the grab result of `CorrectWords`.
- DOM scraping in `getDefinition` and `autoCompleteMapper` is left out. It is a foreign parser; only the fields `autoCompleteMapper` produces appear, as `Corrector.Suggestion`.
- Scorer.Similarity: counts a word's length and indexes its characters by Unicode scalar values, while JavaScript's `.length` and `word[i]` count UTF-16 code units. They differ for characters outside the Basic Multilingual Plane: for the words U+1F600 followed by "a" and U+1F600 followed by "b", JavaScript scores 2/3, which is similar, while the model scores 1/2, which is not.
- Scorer.Mismatches: compares Unicode scalar values, not UTF-16 code units, for the same reason as `Scorer.Similarity`.
- BestMatch.GetSimilarFromSpec: decides ties on exact scores. JavaScript compares rounded doubles, and equal exact scores reached through different compared lengths can round differently. JavaScript may then prefer a later candidate whose rounded score is larger: for `getSimilarFrom(["abcdefxyz", "abx"], "abcdefghi")` it picks "abx" (0.6666666666666667 against 0.6666666666666665), while the model picks "abcdefxyz".
- Corrector.CorrectWordSpec: inherits the exact-score tie-breaking of `BestMatch.GetSimilarFromSpec`, so JavaScript may resolve to a later suggestion whose rounded score is larger.
- Scorer.Score: is exact rational arithmetic, not IEEE doubles. JavaScript prints 0.4000000000000001 for "speak"/"spozc", and a score that lands exactly on the threshold can pass `> 0.6` in JavaScript but not in the model.
- Scorer.Threshold: does not model a NaN threshold. Its falsiness is not represented, because thresholds are `real`.
- WordMapper.MapWord: takes the clock reading and the options as inputs instead of calling `new Date()` and reading `this.options`. The year is a natural number, so negative years are not modelled.
- FormData.GetFormData: takes `encodeURIComponent` as an uninterpreted function parameter. It takes the object's keys as a sequence in the order `Object.keys` would give them, so JavaScript's reordering of integer-like keys is not modelled.
- The `listNameCache` fill and the list sort in `getLists` are left out. They run inside an HTTP callback, and the comparator never reports equality, so it is not a consistent order.
- The single-word branch of `addToList` is left out. It is interleaved with the save request, and its only extra behaviour is that the returned original aliases the corrected word.
- The module export glue at the end of the file is not modelled.
- Promises are left out: `Corrector.CorrectWord` returns a `Result` in place of the promise's resolve/reject, and `Reconcile.CorrectWords` returns its value directly.
- Reconcile.CorrectWords: states the word fields of its output through `MergeAll` in its `ensures`, and the "prefix of the grabbed words" reading of them through the lemma `Reconcile.MergedWordsArePrefix`.
