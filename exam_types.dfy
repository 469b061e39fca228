// The exam data: questions, exams, the setup form's record and the answer
// map the runner fills in.

module ExamTypes {

  import opened Js

  datatype Difficulty = Easy | Medium | Hard

  datatype QuestionType = Single | Multiple

  /**
   * One question. `correctAnswers` holds option positions exactly as stored
   * in the exam file; the engine compares them with 0-based option indices.
   */
  datatype Question = Question(
    id: int,
    category: string,
    difficulty: Difficulty,
    content: string,
    options: seq<string>,
    correctAnswers: seq<int>,
    questionType: QuestionType)

  datatype Exam = Exam(id: string, name: string, questions: seq<Question>)

  datatype ExamSetupData = ExamSetupData(
    examId: string,
    candidateName: string,
    questionCount: int,
    timeLimit: int)

  /** The result record described by the type file: score, correct count and total. */
  datatype ExamResult = ExamResult(score: Num, correctAnswers: nat, totalQuestions: nat)

  /**
   * `Record<number, number[]>`: question position (in the sampled sequence)
   * to the option indices selected so far. A missing key is unanswered.
   */
  type Answers = map<nat, seq<int>>

  /** `answers[index] || []`: an empty list is truthy, so only a missing key defaults. */
  function AnswerAt(answers: Answers, index: nat): (r: seq<int>)
    ensures index in answers ==> r == answers[index]
    ensures index !in answers ==> r == []
  {
    if index in answers then answers[index] else []
  }

  /** `answers[index]?.length > 0`: a key whose list is non-empty. */
  predicate HasAnswer(answers: Answers, index: nat)
  {
    index in answers && |answers[index]| > 0
  }
}
