// The setup form: its initial values, the field setters, the submit
// handler's own validation and the submit button's disabled condition.

module ExamSetup {

  import opened Js
  import opened ExamTypes
  import opened ExamService

  /** The form's starting values: no exam, no name, 100 questions, 3 hours. */
  function InitialForm(): (f: ExamSetupData)
    ensures f.examId == "" && f.candidateName == ""
    ensures f.questionCount == 100 && f.timeLimit == 3
  {
    ExamSetupData("", "", 100, 3)
  }

  /** The checks the form's own submit handler makes: exam chosen, then trimmed name. */
  function FormErrors(form: ExamSetupData): (errors: seq<SetupError>)
    ensures errors == [] <==> form.examId != "" && !AllWhitespace(form.candidateName)
    ensures |errors| <= 2
  {
    TrimEmptyIff(form.candidateName);
    (if form.examId == "" then [ExamNotChosen] else [])
    + (if Trim(form.candidateName) == "" then [NameEmpty] else [])
  }

  /** `!formData.examId || !formData.candidateName`: the untrimmed name. */
  predicate SubmitDisabled(form: ExamSetupData)
  {
    form.examId == "" || form.candidateName == ""
  }

  /**
   * The form's checks are the first two of the exam service's, with the
   * same messages in the same order; with both ranges respected the two
   * validations agree.
   */
  lemma FormErrorsArePrefixOfService(form: ExamSetupData)
    ensures |FormErrors(form)| <= |FailedChecks(form)|
    ensures FormErrors(form) == FailedChecks(form)[..|FormErrors(form)|]
    ensures QuestionCountInRange(form.questionCount) && TimeLimitInRange(form.timeLimit) ==>
              FormErrors(form) == FailedChecks(form)
  {
    var head := FormErrors(form);
    var tail := (if !QuestionCountInRange(form.questionCount) then [QuestionCountOutOfRange] else [])
                + (if !TimeLimitInRange(form.timeLimit) then [TimeLimitOutOfRange] else []);
    assert FailedChecks(form) == head + tail;
    assert (head + tail)[..|head|] == head;
  }

  /** The question count and time limit play no part in the form's checks. */
  lemma FormIgnoresRanges(form: ExamSetupData, questionCount: int, timeLimit: int)
    ensures FormErrors(form.(questionCount := questionCount, timeLimit := timeLimit)) == FormErrors(form)
    ensures FormErrors(form.(questionCount := 0, timeLimit := 0)) == [] ==>
              FailedChecks(form.(questionCount := 0, timeLimit := 0)) == [QuestionCountOutOfRange, TimeLimitOutOfRange]
  {
    var zero := form.(questionCount := 0, timeLimit := 0);
    if FormErrors(zero) == [] {
      FailedChecksCharacterized(zero);
      TrimEmptyIff(zero.candidateName);
    }
  }

  /**
   * A disabled button means the checks would fail; the converse does not
   * hold: a name of spaces enables the button yet fails the trimmed check.
   */
  lemma DisabledFormFails(form: ExamSetupData)
    ensures SubmitDisabled(form) ==> FormErrors(form) != []
    ensures form.examId != "" && form.candidateName != "" && AllWhitespace(form.candidateName) ==>
              !SubmitDisabled(form) && FormErrors(form) == [NameEmpty]
  {
    TrimEmptyIff(form.candidateName);
  }

  /** The form starts disabled, and submitting it as it is reports both checks. */
  lemma InitialFormRejected()
    ensures SubmitDisabled(InitialForm())
    ensures FormErrors(InitialForm()) == [ExamNotChosen, NameEmpty]
  {
    TrimEmptyIff("");
  }

  class SetupForm {
    var formData: ExamSetupData
    var errors: seq<SetupError>

    constructor()
      ensures formData == InitialForm() && errors == []
    {
      formData := InitialForm();
      errors := [];
    }

    /** The exam select's change handler. */
    method SetExamId(value: string)
      modifies this
      ensures formData == old(formData).(examId := value) && errors == old(errors)
    {
      formData := formData.(examId := value);
    }

    /** The name input's change handler. */
    method SetCandidateName(value: string)
      modifies this
      ensures formData == old(formData).(candidateName := value) && errors == old(errors)
    {
      formData := formData.(candidateName := value);
    }

    /** The question-count input's change handler, after `parseInt`. */
    method SetQuestionCount(value: int)
      modifies this
      ensures formData == old(formData).(questionCount := value) && errors == old(errors)
    {
      formData := formData.(questionCount := value);
    }

    /** The time-limit input's change handler, after `parseInt`. */
    method SetTimeLimit(value: int)
      modifies this
      ensures formData == old(formData).(timeLimit := value) && errors == old(errors)
    {
      formData := formData.(timeLimit := value);
    }

    /**
     * `handleSubmit`: clears the errors, runs the two checks and either
     * stores what failed or hands the form data to `onStart` (the result).
     */
    method HandleSubmit() returns (started: Option<ExamSetupData>)
      modifies this
      ensures formData == old(formData)
      ensures errors == FormErrors(formData)
      ensures started.Some? <==> errors == []
      ensures started.Some? ==> started.value == formData
    {
      errors := [];
      var validationErrors: seq<SetupError> := [];
      if formData.examId == "" {
        validationErrors := validationErrors + [ExamNotChosen];
      }
      if Trim(formData.candidateName) == "" {
        validationErrors := validationErrors + [NameEmpty];
      }
      if |validationErrors| > 0 {
        errors := validationErrors;
        return None;
      }
      return Some(formData);
    }
  }
}
