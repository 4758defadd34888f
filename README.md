# Quiz session engine, modelled in Dafny

This is a model of the one-question-at-a-time "Robotik Quiz" (`src/App.jsx`). The learner sees a true/false statement and types an answer. The app judges the answer as

- "richtig" (correct),
- "teilweise" (partly right), or
- "falsch" (wrong).

The app then files the question in a right-list or a wrong-list. A missed question goes back into the working sequence at a later, random position, so it is asked again before the session ends.

The project has four modules:

- `Text` (`text.dfy`) covers the string primitives the answer classifier relies on:
  - `toLowerCase`, over a defined part of Unicode;
  - `trim`, with ECMAScript's full whitespace and line-terminator set;
  - `includes`.

  Each one comes with a reference characterisation. For example, `Trim` returns the slice whose surrounding text is all whitespace, and `Contains` holds exactly when the word is some slice of the text.
- `Words` (`words.dfy`) covers `String.prototype.includesAny`:
  - `split(/[^a-zäöüß]+/)`, modelled as `Split`, with the JavaScript edge cases (there is always one piece, and a separator at either end gives an empty end piece);
  - `filter((w) => w.length > 4)`;
  - `some(includes)`.

  Its main result says that the keyword test succeeds exactly when some *maximal run* of `[a-zäöüß]` in the input is longer than four characters and occurs in the text.
- `Grading` (`grading.dfy`) covers the decision in `handleSubmit`, as `Classify`, with a three-way characterisation of the verdict.
- `Session` (`session.dfy`) models the session state as the class `QuizSession`. The fields `questions`, `currentIndex`, `status`, `wrongList` and `rightList` are updated in place by `Submit` (`handleSubmit`) and `Next` (`handleNext`).
  - The class keeps a ghost copy `initial` of the starting sequence, and `Valid()` is the invariant `Inv` over its fields. The invariant says:
    - every starting question is either answered correctly or still pending, counted as a multiset;
    - the working sequence holds exactly the starting questions plus one copy per missed attempt.
  - As a consequence, when the session is over (`!InProgress()`, the negation of `currentIndex < questions.length`), the right-list is the starting sequence as a multiset.

The React state flag `showExplanation` is set and cleared together with `status`, so the model represents it as `status != None`. The page offers the submit button only while the flag is clear and the next button only while it is set. So `Submit` requires `status == None` and `Next` requires `status != None`. Both methods also require a session in progress, which is the branch of the page that shows them.

`Math.random` in `handleNext` is the caller-supplied `r`, with `0 <= r < |questions| - currentIndex`. For that range `Math.floor(Math.random() * (questions.length - currentIndex))` yields exactly the values of `r`. The shuffled starting sequence is the constructor's argument.

Points where the code's behaviour is worth noting:

- The code lower-cases and then trims; lower-casing leaves whitespace alone, so the order does not change the result.
- The wrong-list receives one entry per missed attempt. A question missed and later answered correctly therefore appears in both lists.
- The re-queue position is `r + currentIndex + 1`, which ranges over every position from `currentIndex + 1` to `|questions|`.
- An answer "richtig"/"falsch" that is not the expected token is "teilweise", not "falsch", when the explanation contains that word, because both words are longer than four letters. `TokenVerdict` states only that such an answer is not "richtig".

## Model

| member | source | states |
|---|---|---|
| Text.ToLower | src/App.jsx:20-21 | A-Z become a-z, Ä, Ö, Ü and ẞ become ä, ö, ü and ß; the result is never an upper-case letter; a character is unchanged exactly when it is not upper case; whitespace is unchanged |
| Text.LowerCase | src/App.jsx:20-21 | same length, character-wise `ToLower`, no upper-case letter left, and text without capitals is unchanged |
| Text.LowerCaseAppend | src/App.jsx:21 | lower-casing distributes over concatenation |
| Text.LowerCaseWhitespace | src/App.jsx:21 | whitespace-only text is unchanged by lower-casing |
| Text.TrimStart | src/App.jsx:21 | the result is a suffix, everything cut off is whitespace, and it does not start with whitespace |
| Text.TrimEnd | src/App.jsx:21 | the result is a prefix, everything cut off is whitespace, and it does not end with whitespace |
| Text.Trim | src/App.jsx:21 | the result is a slice of the input with only whitespace around it, and it neither starts nor ends with whitespace |
| Text.TrimOfPadded | src/App.jsx:21 | text padded with whitespace on both sides trims back to itself when it has no whitespace at its own ends |
| Text.TrimIdempotent | src/App.jsx:21 | trimming twice is trimming once |
| Text.Contains | src/App.jsx:121 | `includes`; no ensures of its own, characterised by `ContainsIff` |
| Text.ContainsIff | src/App.jsx:121 | `includes` holds exactly when the word occurs at some position of the text |
| Words.Split | src/App.jsx:120 | there is at least one piece, and every piece consists of `[a-zäöüß]` only |
| Words.SplitSegmentAt | src/App.jsx:120 | every piece sits in the input at a position delimited by separators or by the ends of the input |
| Words.RunIsSegment | src/App.jsx:120 | every maximal run of `[a-zäöüß]` in the input is one of the pieces, of the same length |
| Words.LongWords | src/App.jsx:120 | an element is kept exactly when it is longer than four characters |
| Words.AnyIncluded | src/App.jsx:121 | true exactly when some word of the list occurs in the text |
| Words.IncludesAny | src/App.jsx:119-122 | true exactly when some piece of `Split(input)` longer than four characters occurs in the text |
| Words.IncludesAnyRuns | src/App.jsx:119-122 | true exactly when some maximal run of `[a-zäöüß]` in the input is longer than four characters and occurs in the text |
| Words.IncludesAnyNeedsLongInput | src/App.jsx:24 | a successful keyword test implies an input longer than four characters |
| Grading.Normalize | src/App.jsx:21 | `toLowerCase().trim()`; no ensures of its own, characterised by `NormalizePadded` and the `Trim` and `LowerCase` rows |
| Grading.Classify | src/App.jsx:19-35 | the verdict of `handleSubmit`; no ensures of its own, characterised by `ClassifySpec` |
| Grading.ClassifySpec | src/App.jsx:19-35 | exactly one verdict: "richtig" iff the lower-cased, trimmed answer is the expected token; "teilweise" iff it is not and shares a maximal run longer than four letters with the lower-cased explanation; "falsch" iff neither |
| Grading.NormalizePadded | src/App.jsx:21 | a word with whitespace around it normalises to the lower-cased word |
| Grading.ExpectedAnswerIsRichtig | src/App.jsx:21-23 | the expected token in any capitalisation, with any whitespace around it, is "richtig" |
| Grading.OppositeAnswerIsNotRichtig | src/App.jsx:21-23 | the opposite token in any capitalisation, with any whitespace around it, is never "richtig" |
| Grading.TokenVerdict | src/App.jsx:19-23 | typing "richtig" or "falsch" (any capitalisation) is judged "richtig" iff it is the expected token |
| Grading.BlankAnswerIsFalsch | src/App.jsx:21-35 | an empty or whitespace-only answer is "falsch", never "teilweise" |
| Session.Insert | src/App.jsx:43 | `splice(k, 0, x)`: one element longer; elements before `k` are unchanged, `x` is at `k`, later elements move up by one; the multiset gains `x` |
| Session.RemoveInserted | src/App.jsx:43 | removing the inserted element restores the sequence |
| Session.RequeueKeepsPending | src/App.jsx:41-46 | after putting the current question back at a later position and advancing, the pending questions are the same multiset as before |
| Session.RightKeepsInv | src/App.jsx:26-28 | recording a correct answer keeps the session invariant |
| Session.WrongKeepsInv | src/App.jsx:29-34 | recording a partly right or wrong answer keeps the session invariant |
| Session.PendingNotRight | src/App.jsx:26-28 | with a repetition-free bank, the question being asked is not yet in the right-list |
| Session.RequeueKeepsInv | src/App.jsx:39-46 | re-queueing a missed question and advancing keeps the session invariant |
| Session.AdvanceKeepsInv | src/App.jsx:39-46 | advancing past a correct answer keeps the session invariant |
| Session.FinishedMeansAllRight | src/App.jsx:63 | once `currentIndex` reaches the end, the right-list is the starting sequence as a multiset |
| Session.QuizSession.InProgress | src/App.jsx:63 | `currentIndex < questions.length`; no ensures of its own, it is the precondition of `Submit` and `Next`, and `Next` states that the right-list covers the starting sequence once it is false |
| Session.QuizSession.constructor | src/App.jsx:8-14 | the session starts at index 0 on the shuffled bank, with no verdict and empty lists, and satisfies the invariant |
| Session.QuizSession.Submit | src/App.jsx:18-37 | the verdict is `Classify` of the current question and the raw input; exactly one list grows by exactly one element (the question itself, or the question with the raw input); sequence and index are unchanged; the invariant is kept |
| Session.QuizSession.Record | src/App.jsx:26-35 | for a given verdict, the right-list grows by the question on "richtig", otherwise the wrong-list grows by the question with the raw input; the other list, sequence and index are unchanged; the invariant is kept |
| Session.QuizSession.Next | src/App.jsx:39-50 | the index advances by one and the verdict is cleared; after "richtig" the sequence is unchanged, otherwise the current question is inserted at `r + currentIndex + 1`; both lists are unchanged; the invariant is kept, and at the end the right-list covers the starting sequence |

## Left out

- Rendering, the JSX markup and `useState` (src/App.jsx:59-112) are presentation. The state is plain fields. The reset of `userInput` in `handleNext` is not modelled, because the input text is a parameter of `Submit`.
- `finishQuiz`, `saveResultsToFile`, `alert` and `window.location.reload` (src/App.jsx:52-57, 124-136) are browser and file I/O.
- `shuffle` (src/App.jsx:115-117) sorts with a random comparator. The constructor takes the already shuffled sequence instead, and nothing is assumed about how it relates to the question bank.
- `Math.random` is the bounded parameter `r` of `Next`.
- The JSON import of the question bank (src/App.jsx:4) is external data loading; questions enter as values.
- `update_questions.js` is a network maintenance script using the GitHub API, base64 encoding and an environment token. It is not part of this model.
- Text.ToLower: the lower-case mapping covers only A-Z, the Latin-1 capitals U+00C0..U+00DE (except U+00D7) and U+1E9E. Other characters that `toLowerCase` changes are left alone, as are its length-changing mappings (such as U+0130). That is weaker than full Unicode case mapping.
- Strings are sequences of code points, not UTF-16 code units. So `answer.length > 4` differs from the source only for characters outside the Basic Multilingual Plane.
- Session.QuizSession.Next: the model does not claim that a session ends. A learner who keeps missing a question keeps getting it back, as in the source.
- The free-text question variant and its reverse containment check are not part of `src/App.jsx`, so they are not modelled.
