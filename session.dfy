/** The session engine of the single-question quiz (src/App.jsx): the
    working sequence of questions, the position in it, the verdict of the
    current answer, and the lists of right and wrong answers. A missed
    question is put back into the sequence at a later position, so that it
    is asked again before the session ends. */
module Session {
  import opened Grading

  datatype Option<T> = None | Some(value: T)

  /** An entry of the wrong-list: the question together with the raw,
      untrimmed text the learner submitted (`{ ...currentQuestion, userText }`). */
  datatype WrongEntry = WrongEntry(question: Question, userText: string)

  /** `list.splice(k, 0, x)` on a copy of `s`: `x` is inserted at index `k`;
      the elements before `k` stay where they are and those from `k` on move
      up by one. */
  function Insert<T>(s: seq<T>, k: nat, x: T): (r: seq<T>)
    requires k <= |s|
    ensures |r| == |s| + 1
    ensures forall i {:trigger r[i]} :: 0 <= i < k ==> r[i] == s[i]
    ensures r[k] == x
    ensures forall i {:trigger r[i]} :: k < i <= |s| ==> r[i] == s[i - 1]
    ensures multiset(r) == multiset(s) + multiset{x}
  {
    assert s == s[..k] + s[k..];
    s[..k] + [x] + s[k..]
  }

  /** `s` with the element at index `k` taken out. */
  function RemoveAt<T>(s: seq<T>, k: nat): seq<T>
    requires k < |s|
  {
    s[..k] + s[k + 1..]
  }

  /** Taking out an inserted element gives back the original sequence. */
  lemma RemoveInserted<T>(s: seq<T>, k: nat, x: T)
    requires k <= |s|
    ensures RemoveAt(Insert(s, k, x), k) == s
  {
    var r := Insert(s, k, x);
    assert RemoveAt(r, k) == s[..k] + s[k..];
    assert s == s[..k] + s[k..];
  }

  /** The questions of the wrong-list entries, in order. */
  function Missed(w: seq<WrongEntry>): seq<Question> {
    seq(|w|, i requires 0 <= i < |w| => w[i].question)
  }

  /** No element occurs twice (the bank's ids are unique). */
  ghost predicate Distinct<T>(s: seq<T>) {
    forall i, j :: 0 <= i < j < |s| ==> s[i] != s[j]
  }

  /** In a sequence without repetitions every element occurs at most once. */
  lemma {:induction false} DistinctCount<T>(s: seq<T>, x: T)
    requires Distinct(s)
    ensures multiset(s)[x] <= 1
  {
    if s != [] {
      assert s == [s[0]] + s[1..];
      assert Distinct(s[1..]) by {
        forall i, j | 0 <= i < j < |s[1..]| ensures s[1..][i] != s[1..][j] {
          assert s[1..][i] == s[i + 1] && s[1..][j] == s[j + 1];
        }
      }
      DistinctCount(s[1..], x);
      if s[0] == x {
        assert x !in s[1..];
      }
    }
  }

  /** Putting the current question back at a later position does not change
      the multiset of questions still to be asked after moving on. */
  lemma RequeueKeepsPending<T>(s: seq<T>, c: nat, k: nat)
    requires c < k <= |s|
    ensures multiset(Insert(s, k, s[c])[c + 1..]) == multiset(s[c..])
  {
    assert Insert(s, k, s[c])[c + 1..] == s[c + 1..k] + [s[c]] + s[k..];
    assert s[c..] == [s[c]] + s[c + 1..k] + s[k..];
  }

  /** A common element cancels: `a + multiset{x} == b + multiset{x}` implies
      `a == b`. */
  lemma MultisetCancel<T>(a: multiset<T>, b: multiset<T>, x: T)
    requires a + multiset{x} == b + multiset{x}
    ensures a == b
  {
    assert forall y :: a[y] == (a + multiset{x})[y] - multiset{x}[y];
  }

  /** The session invariant over plain values. Every question of the
      starting sequence is either answered correctly or still to be asked
      (pending + right == initial), counting the current question as pending
      until a correct answer to it is taken into account. And the working
      sequence holds exactly the starting questions plus one copy per missed
      attempt, counting the copy of a just-missed question that is still to
      be put back. */
  ghost predicate Inv(questions: seq<Question>, index: int, status: Option<Status>,
                      right: seq<Question>, missed: seq<Question>, initial: seq<Question>)
  {
    && 0 <= index <= |questions|
    && (status.Some? ==> index < |questions|)
    && multiset(questions[index..]) + multiset(right)
       == multiset(initial) + (if status == Some(Richtig) then multiset{questions[index]} else multiset{})
    && multiset(questions) + (if status.Some? && status != Some(Richtig) then multiset{questions[index]} else multiset{})
       == multiset(initial) + multiset(missed)
  }

  /** Appending an entry to the wrong-list appends its question. */
  lemma MissedAppend(w: seq<WrongEntry>, e: WrongEntry)
    ensures Missed(w + [e]) == Missed(w) + [e.question]
  {
  }

  /** Taking a correct answer to the current question into account keeps the
      invariant: the question moves from "pending" to "right". */
  lemma RightKeepsInv(questions: seq<Question>, index: nat,
                      right: seq<Question>, missed: seq<Question>, initial: seq<Question>)
    requires Inv(questions, index, None, right, missed, initial) && index < |questions|
    ensures Inv(questions, index, Some(Richtig), right + [questions[index]], missed, initial)
  {
    var x := questions[index];
    calc {
      multiset(questions[index..]) + multiset(right + [x]);
      multiset(questions[index..]) + multiset(right) + multiset{x};
      multiset(initial) + multiset{} + multiset{x};
      multiset(initial) + multiset{x};
    }
  }

  /** Taking a missed answer to the current question into account keeps the
      invariant: the attempt is counted as missed, and the copy still to be
      put back is counted in the working sequence. */
  lemma WrongKeepsInv(questions: seq<Question>, index: nat, status: Option<Status>,
                      right: seq<Question>, missed: seq<Question>, initial: seq<Question>)
    requires Inv(questions, index, None, right, missed, initial) && index < |questions|
    requires status.Some? && status != Some(Richtig)
    ensures Inv(questions, index, status, right, missed + [questions[index]], initial)
  {
    var x := questions[index];
    calc {
      multiset(questions) + multiset{x};
      multiset(questions) + multiset{} + multiset{x};
      multiset(initial) + multiset(missed) + multiset{x};
      multiset(initial) + multiset(missed + [x]);
    }
  }

  /** When the starting sequence has no repetitions, the question being
      asked has not been answered correctly before. */
  lemma PendingNotRight(questions: seq<Question>, index: nat,
                        right: seq<Question>, missed: seq<Question>, initial: seq<Question>)
    requires Inv(questions, index, None, right, missed, initial) && index < |questions|
    requires Distinct(initial)
    ensures questions[index] !in right
  {
    var current := questions[index];
    DistinctCount(initial, current);
    assert questions[index..][0] == current;
    calc {
      multiset(questions[index..]) + multiset(right);
      multiset(initial) + multiset{};
      multiset(initial);
    }
    assert current in multiset(questions[index..]);
  }

  /** Moving on from a missed question that was put back at a later
      position `k` keeps the invariant. */
  lemma RequeueKeepsInv(questions: seq<Question>, index: nat, status: Option<Status>,
                        right: seq<Question>, missed: seq<Question>, initial: seq<Question>, k: nat)
    requires Inv(questions, index, status, right, missed, initial)
    requires status.Some? && status != Some(Richtig) && index < k <= |questions|
    ensures Inv(Insert(questions, k, questions[index]), index + 1, None, right, missed, initial)
  {
    RequeueKeepsPending(questions, index, k);
  }

  /** Moving on from a question answered correctly keeps the invariant. */
  lemma AdvanceKeepsInv(questions: seq<Question>, index: nat,
                        right: seq<Question>, missed: seq<Question>, initial: seq<Question>)
    requires Inv(questions, index, Some(Richtig), right, missed, initial)
    ensures Inv(questions, index + 1, None, right, missed, initial)
  {
    var x := questions[index];
    var rest := multiset(questions[index + 1..]);
    assert questions[index..] == [x] + questions[index + 1..];
    MultisetCancel(rest + multiset(right), multiset(initial), x);
  }

  /** At the end of the session every question of the starting sequence has
      been answered correctly, as often as it occurs there. */
  lemma FinishedMeansAllRight(questions: seq<Question>, right: seq<Question>,
                              missed: seq<Question>, initial: seq<Question>)
    requires Inv(questions, |questions|, None, right, missed, initial)
    ensures multiset(right) == multiset(initial)
  {
    assert questions[|questions|..] == [];
    calc {
      multiset(right);
      multiset(questions[|questions|..]) + multiset(right);
      multiset(initial) + multiset{};
      multiset(initial);
    }
  }

  /** One learner's pass through the question bank. */
  class QuizSession {
    /** The working sequence (`questions`); it only ever grows. */
    var questions: seq<Question>
    /** The position of the question being asked (`currentIndex`). */
    var currentIndex: nat
    /** The verdict of the current answer; `None` before it is submitted.
        The app shows the explanation exactly when this is set. */
    var status: Option<Status>
    /** The missed attempts, in order (`wrongList`). */
    var wrongList: seq<WrongEntry>
    /** The questions answered correctly, in order (`rightList`). */
    var rightList: seq<Question>
    /** The sequence the session started from. */
    ghost var initial: seq<Question>

    /** `currentIndex < questions.length`: a question is being asked. */
    predicate InProgress()
      reads this
    {
      currentIndex < |questions|
    }

    /** The session invariant, `Inv` of the fields. */
    ghost predicate Valid()
      reads this
    {
      Inv(questions, currentIndex, status, rightList, Missed(wrongList), initial)
    }

    /** A new session over the (already shuffled) question bank. */
    constructor (shuffled: seq<Question>)
      ensures Valid()
      ensures questions == shuffled && initial == shuffled
      ensures currentIndex == 0 && status == None
      ensures wrongList == [] && rightList == []
    {
      questions := shuffled;
      currentIndex := 0;
      status := None;
      wrongList := [];
      rightList := [];
      initial := shuffled;
    }

    /** `handleSubmit`: judge the answer to the current question and
        record the verdict. */
    method Submit(userInput: string)
      requires Valid() && InProgress() && status == None
      modifies this
      ensures Valid()
      ensures status == Some(Classify(old(questions[currentIndex]), userInput))
      ensures questions == old(questions) && currentIndex == old(currentIndex) && initial == old(initial)
      ensures status == Some(Richtig) ==>
                rightList == old(rightList) + [old(questions[currentIndex])] && wrongList == old(wrongList)
      ensures status != Some(Richtig) ==>
                wrongList == old(wrongList) + [WrongEntry(old(questions[currentIndex]), userInput)]
                && rightList == old(rightList)
      ensures Distinct(initial) ==> old(questions[currentIndex]) !in old(rightList)
    {
      var verdict := Classify(questions[currentIndex], userInput);
      Record(verdict, userInput);
    }

    /** The bookkeeping of `handleSubmit` for a given verdict: a correct
        answer appends the question itself to the right-list, a partly right
        or wrong one appends the question with the raw input to the
        wrong-list; the other list and the working sequence are left as they
        are. A question answered correctly is never asked again when the bank
        has no repetitions. */
    method Record(verdict: Status, userInput: string)
      requires Valid() && InProgress() && status == None
      modifies this
      ensures Valid()
      ensures status == Some(verdict)
      ensures questions == old(questions) && currentIndex == old(currentIndex) && initial == old(initial)
      ensures verdict == Richtig ==>
                rightList == old(rightList) + [old(questions[currentIndex])] && wrongList == old(wrongList)
      ensures verdict != Richtig ==>
                wrongList == old(wrongList) + [WrongEntry(old(questions[currentIndex]), userInput)]
                && rightList == old(rightList)
      ensures Distinct(initial) ==> old(questions[currentIndex]) !in old(rightList)
    {
      var current := questions[currentIndex];
      if Distinct(initial) {
        PendingNotRight(questions, currentIndex, rightList, Missed(wrongList), initial);
      }
      match verdict {
        case Richtig =>
          RightKeepsInv(questions, currentIndex, rightList, Missed(wrongList), initial);
          rightList := rightList + [current];
        case Teilweise =>
          WrongKeepsInv(questions, currentIndex, Some(verdict), rightList, Missed(wrongList), initial);
          MissedAppend(wrongList, WrongEntry(current, userInput));
          wrongList := wrongList + [WrongEntry(current, userInput)];
        case Falsch =>
          WrongKeepsInv(questions, currentIndex, Some(verdict), rightList, Missed(wrongList), initial);
          MissedAppend(wrongList, WrongEntry(current, userInput));
          wrongList := wrongList + [WrongEntry(current, userInput)];
      }
      status := Some(verdict);
    }

    /** `handleNext`: after a verdict other than "richtig" the current
        question is inserted again at index `r + currentIndex + 1`, somewhere
        in `[currentIndex + 1, |questions|]`, where `r` stands for
        `Math.floor(Math.random() * (questions.length - currentIndex))`; after
        "richtig" the sequence is unchanged. Either way the index advances by
        one. When the last question is done, every question of the starting
        sequence has been answered correctly. */
    method Next(r: nat)
      requires Valid() && InProgress() && status.Some?
      requires r < |questions| - currentIndex
      modifies this
      ensures Valid()
      ensures currentIndex == old(currentIndex) + 1 && status == None
      ensures old(status) == Some(Richtig) ==> questions == old(questions)
      ensures old(status) != Some(Richtig) ==>
                questions == Insert(old(questions), r + old(currentIndex) + 1, old(questions[currentIndex]))
      ensures rightList == old(rightList) && wrongList == old(wrongList) && initial == old(initial)
      ensures !InProgress() ==> multiset(rightList) == multiset(initial)
    {
      var nextList := questions;
      if status != Some(Richtig) {
        var randomIndex := r + currentIndex + 1;
        RequeueKeepsInv(questions, currentIndex, status, rightList, Missed(wrongList), initial, randomIndex);
        nextList := Insert(nextList, randomIndex, questions[currentIndex]);
      } else {
        AdvanceKeepsInv(questions, currentIndex, rightList, Missed(wrongList), initial);
      }
      questions := nextList;
      currentIndex := currentIndex + 1;
      status := None;
      if !InProgress() {
        FinishedMeansAllRight(questions, rightList, Missed(wrongList), initial);
      }
    }
  }
}
