// The exam runner's state: the sampled questions, the answer map, the
// countdown and the submit / review flow.

module Runner {

  import opened ExamTypes
  import opened Sequences
  import opened ExamService

  // ---------------------------------------------------------------------
  // The countdown

  /** What the once-per-second updater makes of the remaining time. */
  function NextRemainingTime(t: int): (r: int)
    ensures 0 <= r
    ensures t <= 1 ==> r == 0
    ensures t > 1 ==> r == t - 1
  {
    if t <= 1 then 0 else t - 1
  }

  /** The remaining time after `k` ticks. */
  function Countdown(t: int, k: nat): int
    decreases k
  {
    if k == 0 then t else Countdown(NextRemainingTime(t), k - 1)
  }

  /** Each of the first `n` ticks from `n` takes exactly one second off. */
  lemma {:induction false} CountdownStepsDown(n: nat, k: nat)
    requires k <= n
    ensures Countdown(n, k) == n - k
  {
    if k > 0 {
      assert NextRemainingTime(n) == n - 1;
      CountdownStepsDown(n - 1, k - 1);
    }
  }

  lemma {:induction false} CountdownStaysAtZero(k: nat)
    ensures Countdown(0, k) == 0
  {
    if k > 0 {
      CountdownStaysAtZero(k - 1);
    }
  }

  /**
   * From `n` seconds the clock shows zero after exactly `n` ticks and stays
   * there; the tick that closes the exam (the one that starts at 1 or less)
   * is the `n`-th.
   */
  lemma CountdownReachesZero(n: nat, k: nat)
    ensures k < n ==> Countdown(n, k) == n - k && Countdown(n, k) > 0
    ensures k >= n ==> Countdown(n, k) == 0
    ensures 1 <= n && k < n - 1 ==> Countdown(n, k) > 1
    ensures 1 <= n ==> Countdown(n, n - 1) == 1
  {
    if k <= n {
      CountdownStepsDown(n, k);
    } else {
      CountdownStepsDown(n, n);
      CountdownAfter(n, n, k - n);
      CountdownStaysAtZero(k - n);
    }
    if 1 <= n {
      CountdownStepsDown(n, n - 1);
    }
  }

  /** Ticking `a` then `b` times is ticking `a + b` times. */
  lemma {:induction false} CountdownAfter(t: int, a: nat, b: nat)
    ensures Countdown(Countdown(t, a), b) == Countdown(t, a + b)
    decreases a
  {
    if a > 0 {
      CountdownAfter(NextRemainingTime(t), a - 1, b);
    }
  }

  /** A non-negative remaining time never goes negative, however many ticks. */
  lemma {:induction false} CountdownNonNegative(t: int, k: nat)
    requires 0 <= t || 0 < k
    ensures Countdown(t, k) >= 0
    decreases k
  {
    if k > 0 {
      CountdownNonNegative(NextRemainingTime(t), k - 1);
    }
  }

  // ---------------------------------------------------------------------
  // Selecting an answer

  /** `list.filter(id => id !== x)` */
  function Without(s: seq<int>, x: int): (r: seq<int>)
    ensures forall y :: y in r <==> y in s && y != x
    ensures |r| <= |s|
  {
    if s == [] then []
    else (if s[0] == x then [] else [s[0]]) + Without(s[1..], x)
  }

  /** The multiple-choice toggle: remove `x` if present, otherwise append it. */
  function Toggle(s: seq<int>, x: int): (r: seq<int>)
    ensures x in r <==> x !in s
    ensures forall y :: y != x ==> (y in r <==> y in s)
  {
    if x in s then Without(s, x) else s + [x]
  }

  lemma {:induction false} WithoutAbsent(s: seq<int>, x: int)
    requires x !in s
    ensures Without(s, x) == s
  {
    if s != [] {
      WithoutAbsent(s[1..], x);
      assert [s[0]] + s[1..] == s;
    }
  }

  lemma {:induction false} WithoutMultiset(s: seq<int>, x: int)
    ensures multiset(Without(s, x)) == multiset(s)[x := 0]
  {
    if s != [] {
      WithoutMultiset(s[1..], x);
      assert s == [s[0]] + s[1..];
    }
  }

  lemma {:induction false} WithoutKeepsNoDup(s: seq<int>, x: int)
    requires NoDup(s)
    ensures NoDup(Without(s, x))
  {
    if s != [] {
      var tail := s[1..];
      assert NoDup(tail) by {
        forall i, j | 0 <= i < j < |tail| ensures tail[i] != tail[j] {
          assert tail[i] == s[i + 1] && tail[j] == s[j + 1];
        }
      }
      WithoutKeepsNoDup(tail, x);
      assert s[0] !in tail by {
        forall k | 0 <= k < |tail| ensures tail[k] != s[0] {
          assert tail[k] == s[k + 1];
        }
      }
      var rest := Without(tail, x);
      if s[0] != x {
        forall i, j | 0 <= i < j < |[s[0]] + rest| ensures ([s[0]] + rest)[i] != ([s[0]] + rest)[j] {
          if i == 0 {
            assert ([s[0]] + rest)[j] == rest[j - 1];
          } else {
            assert ([s[0]] + rest)[i] == rest[i - 1] && ([s[0]] + rest)[j] == rest[j - 1];
          }
        }
      } else {
        assert Without(s, x) == rest;
      }
    }
  }

  /** Toggling keeps a list free of repeats. */
  lemma ToggleKeepsNoDup(s: seq<int>, x: int)
    requires NoDup(s)
    ensures NoDup(Toggle(s, x))
  {
    if x in s {
      WithoutKeepsNoDup(s, x);
    } else {
      forall i, j | 0 <= i < j < |s + [x]| ensures (s + [x])[i] != (s + [x])[j] {
        if j == |s| {
          assert (s + [x])[i] == s[i];
        }
      }
    }
  }

  /**
   * Toggling the same id twice restores the selection: exactly when the id
   * was absent, and up to order (the id moves to the end) when it was
   * present once.
   */
  lemma ToggleTwice(s: seq<int>, x: int)
    ensures x !in s ==> Toggle(Toggle(s, x), x) == s
    ensures NoDup(s) ==> multiset(Toggle(Toggle(s, x), x)) == multiset(s)
  {
    if x !in s {
      ToggleTwiceAbsent(s, x);
    } else if NoDup(s) {
      ToggleTwicePresent(s, x);
    }
  }

  lemma ToggleTwiceAbsent(s: seq<int>, x: int)
    requires x !in s
    ensures Toggle(Toggle(s, x), x) == s
  {
    assert Toggle(s, x) == s + [x];
    assert x in s + [x];
    WithoutAppend(s, [x], x);
    WithoutAbsent(s, x);
    assert Without([x], x) == [];
  }

  lemma ToggleTwicePresent(s: seq<int>, x: int)
    requires x in s && NoDup(s)
    ensures multiset(Toggle(Toggle(s, x), x)) == multiset(s)
  {
    WithoutMultiset(s, x);
    assert Toggle(s, x) == Without(s, x);
    assert x !in Without(s, x);
    assert Toggle(Toggle(s, x), x) == Without(s, x) + [x];
    NoDupOccursOnce(s, x);
  }

  lemma NoDupOccursOnce(s: seq<int>, x: int)
    requires x in s && NoDup(s)
    ensures multiset(s)[x] == 1
  {
    var i :| 0 <= i < |s| && s[i] == x;
    var before, after := s[..i], s[i + 1..];
    assert s == before + [x] + after;
    forall k | 0 <= k < |before| ensures before[k] != x {
      assert before[k] == s[k];
    }
    forall k | 0 <= k < |after| ensures after[k] != x {
      assert after[k] == s[i + 1 + k];
    }
    assert multiset(before)[x] == 0 && multiset(after)[x] == 0;
    assert multiset(s) == multiset(before) + multiset{x} + multiset(after);
  }

  lemma {:induction false} WithoutAppend(a: seq<int>, b: seq<int>, x: int)
    ensures Without(a + b, x) == Without(a, x) + Without(b, x)
  {
    if a != [] {
      WithoutAppend(a[1..], b, x);
      assert (a + b)[1..] == a[1..] + b;
    } else {
      assert a + b == b;
    }
  }

  /** The answer map after `handleAnswerSelect(answerId)` on position `index`. */
  function SelectAnswer(answers: Answers, index: nat, kind: QuestionType, answerId: int): (r: Answers)
    ensures r.Keys == answers.Keys + {index}
    ensures forall k :: k in answers && k != index ==> r[k] == answers[k]
    ensures kind == Single ==> r[index] == [answerId]
    ensures kind == Multiple ==> r[index] == Toggle(AnswerAt(answers, index), answerId)
  {
    match kind
    case Single => answers[index := [answerId]]
    case Multiple => answers[index := Toggle(AnswerAt(answers, index), answerId)]
  }

  /**
   * A selection never removes a key: deselecting the only chosen option
   * leaves an empty list that still counts as an answer key, though the
   * position no longer has an answer.
   */
  lemma DeselectKeepsKey(answers: Answers, index: nat, answerId: int)
    requires AnswerAt(answers, index) == [answerId]
    ensures index in SelectAnswer(answers, index, Multiple, answerId)
    ensures SelectAnswer(answers, index, Multiple, answerId)[index] == []
    ensures !HasAnswer(SelectAnswer(answers, index, Multiple, answerId), index)
    ensures |SelectAnswer(answers, index, Multiple, answerId).Keys| == |answers.Keys|
  {
    assert Without([answerId], answerId) == [];
    assert index in answers;
    assert SelectAnswer(answers, index, Multiple, answerId).Keys == answers.Keys;
  }

  /** Selections keep every entry free of repeats. */
  lemma SelectionKeepsNoDup(answers: Answers, index: nat, kind: QuestionType, answerId: int)
    requires NoDup(AnswerAt(answers, index))
    ensures NoDup(AnswerAt(SelectAnswer(answers, index, kind, answerId), index))
  {
    if kind == Multiple {
      ToggleKeepsNoDup(AnswerAt(answers, index), answerId);
    }
  }

  /** A single-choice selection always leaves exactly one option chosen. */
  lemma SingleSelectionHasOneOption(answers: Answers, index: nat, answerId: int)
    ensures HasAnswer(SelectAnswer(answers, index, Single, answerId), index)
    ensures |SelectAnswer(answers, index, Single, answerId)[index]| == 1
  {
  }

  // ---------------------------------------------------------------------
  // The runner

  /**
   * What the runner shows: the review once it is open, otherwise the
   * question page; with no sampled question the question page has nothing
   * to display and its render fails.
   */
  datatype RunnerView =
    | ReviewPage(questions: seq<Question>, answers: Answers)
    | RenderFails
    | QuestionPage(questionNumber: nat, selected: seq<int>, timeRemaining: int,
                   confirmOpen: bool, answeredCount: nat, totalQuestions: nat)

  class ExamRunner {
    var currentQuestionIndex: nat
    var answers: Answers
    var remainingTime: int
    /** Sampled once when the runner starts; never reassigned. */
    const randomizedQuestions: seq<Question>
    var showSubmitConfirm: bool
    var showReview: bool

    /**
     * The current position names a sampled question whenever there is one:
     * the question list only offers positions of the sample.
     */
    predicate Valid()
      reads this
    {
      randomizedQuestions != [] ==> currentQuestionIndex < |randomizedQuestions|
    }

    /** The runner's view of its own state (lines 90-169 of the component). */
    function View(): (v: RunnerView)
      reads this
      ensures v.ReviewPage? <==> showReview
      ensures v.RenderFails? <==> !showReview && randomizedQuestions == []
      ensures v.QuestionPage? <==> !showReview && randomizedQuestions != []
      ensures v.ReviewPage? ==> v.questions == randomizedQuestions && v.answers == answers
      ensures v.QuestionPage? ==> v.selected == AnswerAt(answers, currentQuestionIndex)
      ensures v.QuestionPage? ==> v.questionNumber == currentQuestionIndex + 1
    {
      if showReview then ReviewPage(randomizedQuestions, answers)
      else if randomizedQuestions == [] then RenderFails
      else QuestionPage(currentQuestionIndex + 1, AnswerAt(answers, currentQuestionIndex),
                        remainingTime, showSubmitConfirm, |answers.Keys|, |randomizedQuestions|)
    }

    /**
     * The runner for `exam` with `timeLimit` hours: 100 questions sampled
     * whatever the setup asked for, no answers, the first question current,
     * dialog and review closed.
     */
    constructor(exam: Exam, timeLimit: int, picks: seq<int>)
      requires ValidPicks(|exam.questions|, picks)
      ensures currentQuestionIndex == 0 && answers == map[]
      ensures remainingTime == timeLimit * 3600
      ensures randomizedQuestions == Sample(exam.questions, 100, picks)
      ensures |randomizedQuestions| == if |exam.questions| < 100 then |exam.questions| else 100
      ensures multiset(randomizedQuestions) <= multiset(exam.questions)
      ensures !showSubmitConfirm && !showReview
      ensures Valid()
    {
      var prepared := PrepareQuestions(exam.questions, 100, picks);
      currentQuestionIndex := 0;
      answers := map[];
      remainingTime := timeLimit * 3600;
      randomizedQuestions := prepared;
      showSubmitConfirm := false;
      showReview := false;
    }

    /** `handleTimeUp`: opens the review. */
    method HandleTimeUp()
      requires Valid()
      modifies this
      ensures Valid()
      ensures showReview
      ensures currentQuestionIndex == old(currentQuestionIndex) && answers == old(answers)
      ensures remainingTime == old(remainingTime) && showSubmitConfirm == old(showSubmitConfirm)
    {
      showReview := true;
    }

    /** One second of the timer; reaching zero opens the review. */
    method Tick()
      requires Valid()
      modifies this
      ensures Valid()
      ensures remainingTime == NextRemainingTime(old(remainingTime))
      ensures showReview == (old(showReview) || old(remainingTime) <= 1)
      ensures currentQuestionIndex == old(currentQuestionIndex) && answers == old(answers)
      ensures showSubmitConfirm == old(showSubmitConfirm)
    {
      if remainingTime <= 1 {
        HandleTimeUp();
        remainingTime := 0;
      } else {
        remainingTime := remainingTime - 1;
      }
    }

    /**
     * `handleAnswerSelect(answerId)` on the current question; only the
     * question page, shown while the review is closed, offers options.
     */
    method HandleAnswerSelect(answerId: int)
      requires Valid() && randomizedQuestions != [] && !showReview
      modifies this
      ensures Valid()
      ensures currentQuestionIndex == old(currentQuestionIndex) && remainingTime == old(remainingTime)
      ensures answers == SelectAnswer(old(answers), currentQuestionIndex,
                                      randomizedQuestions[currentQuestionIndex].questionType, answerId)
      ensures showSubmitConfirm == old(showSubmitConfirm) && showReview == old(showReview)
    {
      var question := randomizedQuestions[currentQuestionIndex];
      if question.questionType == Single {
        answers := answers[currentQuestionIndex := [answerId]];
        return;
      }
      var currentAnswers := AnswerAt(answers, currentQuestionIndex);
      if answerId in currentAnswers {
        answers := answers[currentQuestionIndex := Without(currentAnswers, answerId)];
      } else {
        answers := answers[currentQuestionIndex := currentAnswers + [answerId]];
      }
    }

    /**
     * `setCurrentQuestionIndex`, as the question list calls it: no answer
     * changes. The list is rendered only while the review is closed.
     */
    method SelectQuestion(index: nat)
      requires index < |randomizedQuestions| && !showReview
      modifies this
      ensures Valid()
      ensures currentQuestionIndex == index
      ensures answers == old(answers) && remainingTime == old(remainingTime)
      ensures showSubmitConfirm == old(showSubmitConfirm) && showReview == old(showReview)
    {
      currentQuestionIndex := index;
    }

    /** `handleSubmit`, from the question page's button: only opens the confirmation dialog. */
    method HandleSubmit()
      requires Valid() && !showReview
      modifies this
      ensures Valid()
      ensures showSubmitConfirm
      ensures showReview == old(showReview) && answers == old(answers)
      ensures currentQuestionIndex == old(currentQuestionIndex) && remainingTime == old(remainingTime)
    {
      showSubmitConfirm := true;
    }

    /** "Continue Exam", in the question page's dialog: only closes the dialog. */
    method CancelSubmit()
      requires Valid() && !showReview
      modifies this
      ensures Valid()
      ensures !showSubmitConfirm
      ensures showReview == old(showReview) && answers == old(answers)
      ensures currentQuestionIndex == old(currentQuestionIndex) && remainingTime == old(remainingTime)
    {
      showSubmitConfirm := false;
    }

    /** `confirmSubmit`, in the question page's dialog: closes it and opens the review. */
    method ConfirmSubmit()
      requires Valid() && !showReview
      modifies this
      ensures Valid()
      ensures !showSubmitConfirm && showReview
      ensures answers == old(answers)
      ensures currentQuestionIndex == old(currentQuestionIndex) && remainingTime == old(remainingTime)
    {
      showSubmitConfirm := false;
      showReview := true;
    }

    /**
     * `handleFinishReview`, the review's close button: hands the answers,
     * as they are, to `onComplete`; they are the answers the review shows.
     */
    method HandleFinishReview() returns (submitted: Answers)
      requires showReview
      ensures submitted == answers
      ensures View().ReviewPage? && submitted == View().answers
      ensures View().questions == randomizedQuestions
    {
      submitted := answers;
    }
  }
}
