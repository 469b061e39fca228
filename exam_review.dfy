// The review page: the per-question verdict and the colouring of each option.

module Review {

  import opened Js
  import opened ExamTypes
  import opened Sequences
  import opened ExamService

  /** `isAnswerCorrect(question, userAnswers)`; `None` is a missing list. */
  function IsAnswerCorrect(question: Question, userAnswers: Option<seq<int>>): (r: bool)
    ensures userAnswers.None? ==> !r
    ensures userAnswers.Some? ==> (r <==> SameAnswers(userAnswers.value, question.correctAnswers))
  {
    match userAnswers
    case None => false
    case Some(user) =>
      var keys := question.correctAnswers;
      |keys| == |user| && (forall a :: a in keys ==> a in user) && (forall a :: a in user ==> a in keys)
  }

  /** The four ways an option is drawn, from whether it was chosen and whether it is a key. */
  datatype OptionClass = SelectedCorrect | SelectedWrong | MissedCorrect | Plain

  /** Option `optionIndex` is compared with the keys as it is, 0-based. */
  function ClassifyOption(userAnswers: seq<int>, correctAnswers: seq<int>, optionIndex: nat): (c: OptionClass)
    ensures c == SelectedCorrect <==> optionIndex in userAnswers && optionIndex in correctAnswers
    ensures c == SelectedWrong <==> optionIndex in userAnswers && optionIndex !in correctAnswers
    ensures c == MissedCorrect <==> optionIndex !in userAnswers && optionIndex in correctAnswers
    ensures c == Plain <==> optionIndex !in userAnswers && optionIndex !in correctAnswers
  {
    var isSelected := optionIndex in userAnswers;
    var isCorrectOption := optionIndex in correctAnswers;
    if isSelected && isCorrectOption then SelectedCorrect
    else if isSelected then SelectedWrong
    else if isCorrectOption then MissedCorrect
    else Plain
  }

  /** One reviewed question: its number, its verdict and the class of each option. */
  datatype ReviewItem = ReviewItem(number: nat, isCorrect: bool, options: seq<OptionClass>)

  function ReviewItemOf(question: Question, userAnswers: seq<int>, index: nat): (item: ReviewItem)
    ensures item.number == index + 1
    ensures item.isCorrect == IsAnswerCorrect(question, Some(userAnswers))
    ensures |item.options| == |question.options|
    ensures forall o :: 0 <= o < |question.options| ==>
              item.options[o] == ClassifyOption(userAnswers, question.correctAnswers, o)
  {
    ReviewItem(index + 1, IsAnswerCorrect(question, Some(userAnswers)),
      seq(|question.options|, o requires 0 <= o < |question.options| =>
        ClassifyOption(userAnswers, question.correctAnswers, o)))
  }

  /** The review page: one item per sampled question, read with `answers[index] || []`. */
  function ReviewItems(questions: seq<Question>, answers: Answers): (r: seq<ReviewItem>)
    ensures |r| == |questions|
    ensures forall i :: 0 <= i < |questions| ==> r[i] == ReviewItemOf(questions[i], AnswerAt(answers, i), i)
  {
    seq(|questions|, i requires 0 <= i < |questions| => ReviewItemOf(questions[i], AnswerAt(answers, i), i))
  }

  function ReviewVerdicts(questions: seq<Question>, answers: Answers): (r: seq<bool>)
    ensures |r| == |questions|
  {
    seq(|questions|, i requires 0 <= i < |questions| => ReviewItems(questions, answers)[i].isCorrect)
  }

  /**
   * The review marks a question correct exactly when the scoring counts it,
   * so the number of questions marked correct is the score's count.
   */
  lemma ReviewAgreesWithScoring(questions: seq<Question>, answers: Answers)
    ensures ReviewVerdicts(questions, answers) == Verdicts(questions, answers)
    ensures CountTrue(ReviewVerdicts(questions, answers), |questions|) == CorrectCount(questions, answers)
  {
    var review := ReviewVerdicts(questions, answers);
    var scoring := Verdicts(questions, answers);
    forall i | 0 <= i < |questions| ensures review[i] == scoring[i] {
      var user := AnswerAt(answers, i);
      var keys := questions[i].correctAnswers;
      assert review[i] == IsAnswerCorrect(questions[i], Some(user));
      assert scoring[i] == SameAnswers(user, keys);
    }
  }

  /** A question marked correct shows no red option and no missed key. */
  lemma CorrectQuestionHasOnlyGreenOrPlainOptions(question: Question, userAnswers: seq<int>, o: nat)
    requires IsAnswerCorrect(question, Some(userAnswers))
    ensures ClassifyOption(userAnswers, question.correctAnswers, o) in {SelectedCorrect, Plain}
  {
  }

  /**
   * Conversely, when both lists are free of repeats and name only options
   * on the page, a page with no red option and no missed key is a correct
   * answer.
   */
  lemma GreenOrPlainOptionsMeanCorrect(question: Question, userAnswers: seq<int>)
    requires NoDup(userAnswers) && NoDup(question.correctAnswers)
    requires forall a :: a in userAnswers ==> 0 <= a < |question.options|
    requires forall a :: a in question.correctAnswers ==> 0 <= a < |question.options|
    requires forall o :: 0 <= o < |question.options| ==>
               ClassifyOption(userAnswers, question.correctAnswers, o) in {SelectedCorrect, Plain}
    ensures IsAnswerCorrect(question, Some(userAnswers))
  {
    var keys := question.correctAnswers;
    forall a | a in userAnswers ensures a in keys {
      assert ClassifyOption(userAnswers, keys, a) in {SelectedCorrect, Plain};
    }
    forall a | a in keys ensures a in userAnswers {
      assert ClassifyOption(userAnswers, keys, a) in {SelectedCorrect, Plain};
    }
    ElementsEqualIff(userAnswers, keys);
    NoDupCardinality(userAnswers);
    NoDupCardinality(keys);
  }

  /**
   * Keys are compared with 0-based option positions: a key naming a
   * position past the last option (a 1-based key for the last option, say)
   * can never be matched by choosing options on the page.
   */
  lemma KeyPastLastOptionNeverCorrect(question: Question, userAnswers: seq<int>)
    requires exists k :: k in question.correctAnswers && k >= |question.options|
    requires forall a :: a in userAnswers ==> 0 <= a < |question.options|
    ensures !IsAnswerCorrect(question, Some(userAnswers))
  {
    var k :| k in question.correctAnswers && k >= |question.options|;
    assert k !in userAnswers;
  }
}
