// The top-level session: the loaded exam, the setup it was started with,
// the failure flag and the stored result, the transitions between them and
// the screen they select.

module Session {

  import opened Js
  import opened ExamTypes
  import opened Sequences
  import opened ExamService

  /** The record `handleComplete` stores: a score and a count, no total. */
  datatype StoredResult = StoredResult(score: Num, correctAnswers: nat)

  /** How `examService.loadExam` ended: with the exam, or by throwing. */
  datatype LoadOutcome = Loaded(exam: Exam) | LoadFailed

  datatype Screen =
    | FailScreen
    | ResultScreen(score: Num, correctAnswers: nat, totalQuestions: nat)
    | RunnerScreen(exam: Exam, timeLimit: int)
    | SetupScreen

  /** `exam?.questions.length || 0` */
  function ShownTotal(exam: Option<Exam>): (n: nat)
    ensures exam.None? ==> n == 0
    ensures exam.Some? ==> n == |exam.value.questions|
  {
    match exam
    case None => 0
    case Some(e) => |e.questions|
  }

  /**
   * The screen the session renders: the failure screen first, then the
   * result, then the runner when both an exam and a setup are present, and
   * the setup form otherwise.
   */
  function ScreenOf(exam: Option<Exam>, setup: Option<ExamSetupData>, hasFailed: bool,
                    result: Option<StoredResult>): (s: Screen)
    ensures s.FailScreen? <==> hasFailed
    ensures s.ResultScreen? <==> !hasFailed && result.Some?
    ensures s.RunnerScreen? <==> !hasFailed && result.None? && exam.Some? && setup.Some?
    ensures s.SetupScreen? <==> !hasFailed && result.None? && (exam.None? || setup.None?)
    ensures s.ResultScreen? ==>
              s.score == result.value.score && s.correctAnswers == result.value.correctAnswers
              && s.totalQuestions == ShownTotal(exam)
    ensures s.RunnerScreen? ==> s.exam == exam.value && s.timeLimit == setup.value.timeLimit
  {
    if hasFailed then FailScreen
    else if result.Some? then ResultScreen(result.value.score, result.value.correctAnswers, ShownTotal(exam))
    else if exam.Some? && setup.Some? then RunnerScreen(exam.value, setup.value.timeLimit)
    else SetupScreen
  }

  /**
   * The result `handleComplete` computes: the number of answer keys, and
   * that number as a percentage of the exam's whole question pool.
   */
  function CompletionResult(questions: seq<Question>, answers: Answers): (r: StoredResult)
    ensures r.correctAnswers == |answers.Keys|
    ensures r.score == Percentage(|answers.Keys|, |questions|)
  {
    StoredResult(Percentage(|answers.Keys|, |questions|), |answers.Keys|)
  }

  /** Only which positions hold a key matters, not what was chosen there. */
  lemma CompletionDependsOnKeysOnly(questions: seq<Question>, a: Answers, b: Answers)
    requires a.Keys == b.Keys
    ensures CompletionResult(questions, a) == CompletionResult(questions, b)
  {
  }

  /**
   * When every key is a position of the pool, the stored count is at most the
   * pool size and the score is a percentage.
   */
  lemma CompletionResultBounds(questions: seq<Question>, answers: Answers)
    requires |questions| > 0
    requires forall k :: k in answers ==> k < |questions|
    ensures CompletionResult(questions, answers).correctAnswers <= |questions|
    ensures CompletionResult(questions, answers).score.Finite?
    ensures 0.0 <= CompletionResult(questions, answers).score.value <= 100.0
  {
    IndexSubsetCardinality(answers.Keys, |questions|);
    PercentageBounds(|answers.Keys|, |questions|);
  }

  /** A one-question pool whose only question is answered wrongly. */
  function WrongAnswerQuestion(): Question
  {
    Question(1, "c", Easy, "q", ["a", "b"], [0], Single)
  }

  /**
   * As written, a wrong answer scores 100 and is reported as one correct
   * answer, while the scoring of the exam service counts none.
   */
  lemma CompletionScoresWrongAnswer()
    ensures CorrectCount([WrongAnswerQuestion()], map[0 := [1]]) == 0
    ensures CompletionResult([WrongAnswerQuestion()], map[0 := [1]]) == StoredResult(Finite(100.0), 1)
  {
    var answers: Answers := map[0 := [1]];
    assert answers.Keys == {0};
    assert !SameAnswers([1], [0]) by {
      assert 0 !in [1];
    }
    assert Verdicts([WrongAnswerQuestion()], answers) == [false];
  }

  /** As written, the result screen reached by completing an exam shows a total of 0. */
  lemma CompletionShowsZeroTotal(e: Exam, setup: ExamSetupData, answers: Answers)
    ensures ScreenOf(None, Some(setup), false, Some(CompletionResult(e.questions, answers)))
            == ResultScreen(Percentage(|answers.Keys|, |e.questions|), |answers.Keys|, 0)
  {
  }

  /**
   * The result the completion evidently means: the exam service's scoring
   * over the questions actually presented, and their number as the total.
   */
  function CorrectedResult(questions: seq<Question>, answers: Answers): (r: ExamResult)
    ensures r.correctAnswers == CorrectCount(questions, answers) <= |questions|
    ensures r.totalQuestions == |questions|
    ensures r.score == Percentage(r.correctAnswers, |questions|)
  {
    var correct := CorrectCount(questions, answers);
    ExamResult(Percentage(correct, |questions|), correct, |questions|)
  }

  /**
   * The corrected score is a percentage that is 100 exactly when every
   * presented question is answered correctly and 0 exactly when none is; so
   * the wrongly answered question above scores 0.
   */
  lemma CorrectedResultScores(questions: seq<Question>, answers: Answers)
    requires |questions| > 0
    ensures CorrectedResult(questions, answers).score.Finite?
    ensures 0.0 <= CorrectedResult(questions, answers).score.value <= 100.0
    ensures CorrectedResult(questions, answers).score.value == 100.0 <==>
              forall i :: 0 <= i < |questions| ==> Verdicts(questions, answers)[i]
    ensures CorrectedResult(questions, answers).score.value == 0.0 <==>
              forall i :: 0 <= i < |questions| ==> !Verdicts(questions, answers)[i]
  {
    var flags := Verdicts(questions, answers);
    var n := |questions|;
    PercentageBounds(CorrectCount(questions, answers), n);
    CountTrueIsCardinality(flags, n);
    IndexRangeCardinality(n);
    var hits := TrueBelow(flags, n);
    assert hits <= IndexRange(n);
    if forall i :: 0 <= i < n ==> flags[i] {
      assert hits == IndexRange(n);
    }
    if |hits| == n {
      forall i | 0 <= i < n ensures flags[i] {
        if !flags[i] {
          assert hits <= IndexRange(n) - {i};
          SubsetCardinality(hits, IndexRange(n) - {i});
        }
      }
    }
    forall i | 0 <= i < n && flags[i] ensures i in hits {
    }
    if forall i :: 0 <= i < n ==> !flags[i] {
      assert hits == {};
    }
  }

  /** The corrected result scores the wrongly answered question 0 of 1. */
  lemma CorrectedResultOnWrongAnswer()
    ensures CorrectedResult([WrongAnswerQuestion()], map[0 := [1]]) == ExamResult(Finite(0.0), 0, 1)
  {
    CompletionScoresWrongAnswer();
  }

  /**
   * The screen selection the result record evidently means: the same
   * priority as `ScreenOf`, with the result screen's total read from the
   * stored result instead of the (already cleared) exam.
   */
  function CorrectedScreenOf(exam: Option<Exam>, setup: Option<ExamSetupData>, hasFailed: bool,
                             result: Option<ExamResult>): (s: Screen)
    ensures s.FailScreen? <==> hasFailed
    ensures s.ResultScreen? <==> !hasFailed && result.Some?
    ensures s.RunnerScreen? <==> !hasFailed && result.None? && exam.Some? && setup.Some?
    ensures s.SetupScreen? <==> !hasFailed && result.None? && (exam.None? || setup.None?)
    ensures s.ResultScreen? ==>
              s.score == result.value.score && s.correctAnswers == result.value.correctAnswers
              && s.totalQuestions == result.value.totalQuestions
  {
    if hasFailed then FailScreen
    else if result.Some? then ResultScreen(result.value.score, result.value.correctAnswers, result.value.totalQuestions)
    else if exam.Some? && setup.Some? then RunnerScreen(exam.value, setup.value.timeLimit)
    else SetupScreen
  }

  /**
   * The corrected selection differs from the one as written only in the
   * total of the result screen.
   */
  lemma CorrectedScreenDiffersOnlyInTotal(exam: Option<Exam>, setup: Option<ExamSetupData>, hasFailed: bool,
                                          r: ExamResult)
    ensures var shown := ScreenOf(exam, setup, hasFailed, Some(StoredResult(r.score, r.correctAnswers)));
            var corrected := CorrectedScreenOf(exam, setup, hasFailed, Some(r));
            if hasFailed then shown == corrected == FailScreen
            else shown == corrected.(totalQuestions := ShownTotal(exam))
  {
  }

  /**
   * With the corrected result, the screen reached by completing an exam
   * (exam cleared, setup kept, not failed) shows the number of presented
   * questions and never more correct answers than that: the mirror of
   * `CompletionShowsZeroTotal`.
   */
  lemma CorrectedScreenShowsTotal(questions: seq<Question>, setup: ExamSetupData, answers: Answers)
    ensures CorrectedScreenOf(None, Some(setup), false, Some(CorrectedResult(questions, answers)))
            == ResultScreen(Percentage(CorrectCount(questions, answers), |questions|),
                            CorrectCount(questions, answers), |questions|)
    ensures CorrectedScreenOf(None, Some(setup), false, Some(CorrectedResult(questions, answers))).correctAnswers
            <= |questions|
  {
  }

  class TestingCenter {
    var exam: Option<Exam>
    var examSetup: Option<ExamSetupData>
    var hasFailed: bool
    var examResult: Option<StoredResult>

    /** The screen the four fields select. */
    function Screen(): Screen
      reads this
    {
      ScreenOf(exam, examSetup, hasFailed, examResult)
    }

    constructor()
      ensures exam == None && examSetup == None && !hasFailed && examResult == None
      ensures Screen() == SetupScreen
    {
      exam := None;
      examSetup := None;
      hasFailed := false;
      examResult := None;
    }

    /** `handleStart(setupData)`, with the outcome of loading the chosen exam. */
    method HandleStart(setupData: ExamSetupData, outcome: LoadOutcome)
      modifies this
      ensures outcome.Loaded? ==> exam == Some(outcome.exam) && examSetup == Some(setupData)
      ensures outcome.LoadFailed? ==> exam == old(exam) && examSetup == old(examSetup)
      ensures hasFailed == old(hasFailed) && examResult == old(examResult)
    {
      match outcome
      case Loaded(examData) =>
        exam := Some(examData);
        examSetup := Some(setupData);
      case LoadFailed =>
    }

    /** `handleComplete(answers)`: a no-op without an exam; otherwise stores the result and drops the exam. */
    method HandleComplete(answers: Answers)
      modifies this
      ensures old(exam).None? ==>
                exam == old(exam) && examResult == old(examResult)
      ensures old(exam).Some? ==>
                exam == None && examResult == Some(CompletionResult(old(exam).value.questions, answers))
      ensures examSetup == old(examSetup) && hasFailed == old(hasFailed)
      ensures old(exam).Some? && !hasFailed ==> Screen().ResultScreen? && Screen().totalQuestions == 0
    {
      if exam.None? {
        return;
      }
      var result := StoredResult(
        Percentage(|answers.Keys|, |exam.value.questions|),
        |answers.Keys|);
      examResult := Some(result);
      exam := None;
    }

    /** `handleFail`: the full-screen exit. */
    method HandleFail()
      modifies this
      ensures hasFailed && exam == None
      ensures examSetup == old(examSetup) && examResult == old(examResult)
      ensures Screen() == FailScreen
    {
      hasFailed := true;
      exam := None;
    }

    /** `handleRestart`: back to the initial state. */
    method HandleRestart()
      modifies this
      ensures exam == None && examSetup == None && !hasFailed && examResult == None
      ensures Screen() == SetupScreen
    {
      exam := None;
      examSetup := None;
      hasFailed := false;
      examResult := None;
    }
  }
}
