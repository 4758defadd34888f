/** The answer classifier of the single-question quiz (`handleSubmit` in
    src/App.jsx): a learner's free-text answer to a true/false statement is
    judged "richtig" (correct), "teilweise" (partly right) or "falsch"
    (wrong). */
module Grading {
  import opened Text
  import opened Words

  /** One record of the question bank: a statement that is either true or
      false, with the explanation shown after the answer. */
  datatype Question = Question(id: int, text: string, correct: bool, explanation: string)

  /** The three verdicts, named by the strings the app stores in `status`. */
  datatype Status =
    | Richtig    // "richtig": the answer matches the statement's truth value
    | Teilweise  // "teilweise": wrong, but shares a keyword with the explanation
    | Falsch     // "falsch": everything else

  /** The one answer accepted as correct: "richtig" for a true statement,
      "falsch" for a false one. */
  function ExpectedToken(correct: bool): string {
    if correct then "richtig" else "falsch"
  }

  /** `userInput.toLowerCase().trim()`. */
  function Normalize(userInput: string): string {
    Trim(LowerCase(userInput))
  }

  /** `handleSubmit`'s decision: the normalised answer is correct when it is
      the expected token; otherwise it is partly right when it is longer than
      four characters and one of its words longer than four characters
      occurs in the lower-cased explanation; otherwise it is wrong. */
  function Classify(q: Question, userInput: string): Status {
    var explanation := LowerCase(q.explanation);
    var answer := Normalize(userInput);
    var isCorrect := (q.correct && answer == "richtig") || (!q.correct && answer == "falsch");
    var isPartial := !isCorrect && |answer| > 4 && IncludesAny(explanation, answer);
    if isCorrect then Richtig
    else if isPartial then Teilweise
    else Falsch
  }

  /** The keyword condition of the "teilweise" verdict, stated on the
      normalised answer itself: some maximal run of `[a-zäöüß]` in it is
      longer than four characters and occurs in the lower-cased
      explanation. */
  ghost predicate SharesKeyword(q: Question, answer: string) {
    exists p, e :: IsRun(answer, p, e) && e - p > 4 && Contains(LowerCase(q.explanation), answer[p..e])
  }

  /** The full characterisation of the verdict. Exactly one verdict is
      produced: "richtig" exactly when the normalised answer is the expected
      token; "teilweise" exactly when it is not, and it shares a keyword
      longer than four characters with the explanation; "falsch" exactly
      when neither holds. */
  lemma ClassifySpec(q: Question, userInput: string)
    ensures Classify(q, userInput) == Richtig <==> Normalize(userInput) == ExpectedToken(q.correct)
    ensures Classify(q, userInput) == Teilweise
            <==> Normalize(userInput) != ExpectedToken(q.correct) && SharesKeyword(q, Normalize(userInput))
    ensures Classify(q, userInput) == Falsch
            <==> Normalize(userInput) != ExpectedToken(q.correct) && !SharesKeyword(q, Normalize(userInput))
  {
    var answer := Normalize(userInput);
    IncludesAnyRuns(LowerCase(q.explanation), answer);
    if IncludesAny(LowerCase(q.explanation), answer) {
      IncludesAnyNeedsLongInput(LowerCase(q.explanation), answer);
    }
  }

  /** A word padded with whitespace normalises to the word in lower case,
      when the lower-cased word has no whitespace at its ends. */
  lemma NormalizePadded(before: string, word: string, after: string)
    requires forall j :: 0 <= j < |before| ==> IsWhitespace(before[j])
    requires forall j :: 0 <= j < |after| ==> IsWhitespace(after[j])
    requires LowerCase(word) != [] ==> !IsWhitespace(LowerCase(word)[0]) && !IsWhitespace(LowerCase(word)[|word| - 1])
    ensures Normalize(before + word + after) == LowerCase(word)
  {
    LowerCaseAppend(before + word, after);
    LowerCaseAppend(before, word);
    LowerCaseWhitespace(before);
    LowerCaseWhitespace(after);
    TrimOfPadded(before, LowerCase(word), after);
  }

  /** The expected token, in any capitalisation and with any whitespace
      around it, is judged correct. */
  lemma ExpectedAnswerIsRichtig(q: Question, before: string, word: string, after: string)
    requires forall j :: 0 <= j < |before| ==> IsWhitespace(before[j])
    requires forall j :: 0 <= j < |after| ==> IsWhitespace(after[j])
    requires LowerCase(word) == ExpectedToken(q.correct)
    ensures Classify(q, before + word + after) == Richtig
  {
    NormalizePadded(before, word, after);
  }

  /** The opposite token ("falsch" for a true statement, "richtig" for a
      false one), in any capitalisation and with any whitespace around it,
      is never judged correct. */
  lemma OppositeAnswerIsNotRichtig(q: Question, before: string, word: string, after: string)
    requires forall j :: 0 <= j < |before| ==> IsWhitespace(before[j])
    requires forall j :: 0 <= j < |after| ==> IsWhitespace(after[j])
    requires LowerCase(word) == ExpectedToken(!q.correct)
    ensures Classify(q, before + word + after) != Richtig
  {
    NormalizePadded(before, word, after);
    ClassifySpec(q, before + word + after);
    assert |ExpectedToken(q.correct)| != |ExpectedToken(!q.correct)|;
  }

  /** The two tokens themselves, typed without padding: "richtig" for a
      true statement and "falsch" for a false one are correct, the other way
      round they are not. */
  lemma TokenVerdict(q: Question, word: string)
    requires LowerCase(word) == "richtig" || LowerCase(word) == "falsch"
    ensures Classify(q, word) == Richtig <==> LowerCase(word) == ExpectedToken(q.correct)
  {
    assert [] + word + [] == word;
    if LowerCase(word) == ExpectedToken(q.correct) {
      ExpectedAnswerIsRichtig(q, [], word, []);
    } else {
      OppositeAnswerIsNotRichtig(q, [], word, []);
    }
  }

  /** An empty or whitespace-only answer is always wrong, never partly
      right. */
  lemma BlankAnswerIsFalsch(q: Question, userInput: string)
    requires forall j :: 0 <= j < |userInput| ==> IsWhitespace(userInput[j])
    ensures Classify(q, userInput) == Falsch
  {
    LowerCaseWhitespace(userInput);
    TrimOfPadded(userInput, [], []);
    assert userInput + [] + [] == userInput;
  }
}
