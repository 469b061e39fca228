# Testing center exam engine, in Dafny

This project models the exam engine of the Testing Center browser quiz runner and proves properties of it. The engine covers:

- the **setup form**: a candidate picks an exam, gives their name, a question count and a time limit in hours;
- the **exam runner**: it samples the questions by a Fisher–Yates shuffle, keeps the answer map, counts the clock down once per second and leads through submit → confirm → review;
- the **session**: it switches between the setup screen, the runner, the fail screen and the result screen.

The exam service's pure helpers are modelled too: setup validation, sampling, scoring, progress statistics, the `HH:MM:SS` clock text and the auto-submit rule.

Each source file has one Dafny module:

| module | file | source |
|---|---|---|
| `ExamTypes` | `exam_types.dfy` | `src/types/exam.ts` |
| `ExamService` | `exam_service.dfy` | `src/services/examService.ts` |
| `Runner` | `exam_runner.dfy` | `src/components/TestingCenter/ExamRunner.tsx` |
| `Session` | `testing_center.dfy` | `src/components/TestingCenter/index.tsx` |
| `Review` | `exam_review.dfy` | `src/components/TestingCenter/ExamReview.tsx` |
| `QuestionList` | `question_list.dfy` | `src/components/TestingCenter/QuestionList.tsx` |
| `Timer` | `timer.dfy` | `src/components/TestingCenter/Timer.tsx` |
| `ResultScreen` | `result_screen.dfy` | `src/components/TestingCenter/ResultScreen.tsx` |
| `ExamSetup` | `exam_setup.dfy` | `src/components/TestingCenter/ExamSetup.tsx` |

Two support modules hold no behaviour of their own:

- `Js` (`js.dfy`) models the JavaScript built-ins the engine relies on:
  - numbers as `Num`: exact reals, plus `NaN` and `Infinity` for division by zero;
  - `trim`, `toString`, `padStart`, `join` and `split`;
  - the truncating `%`.
- `Sequences` (`sequences.dfy`) holds repeat-freedom and cardinality facts.

Where the code keeps state, the model does too:

- The runner, the session and the setup form are classes whose methods update fields.
- `prepareQuestions` swaps in place in an `array`.
- The conditional pushes of `validateExamSetup` and the loops of `calculateScore` and `getExamStats` are proved against specification functions.

`Math.random` is replaced by a caller-supplied sequence `picks`, where `picks[i]` is the partner index `j` in `[0, i]` of step `i`. The `Record<number, number[]>` answer map is a Dafny `map<nat, seq<int>>`.

## Model

| member | source | states |
|---|---|---|
| `ExamService.FailedChecks` | src/services/examService.ts:29-51 | the errors `validateExamSetup` pushes, by four conditional appends in check order; its contract: empty iff the setup is valid (both directions); `FailedChecksCharacterized` and `FailedChecksOrdered` prove which check reports which error and in what order |
| `ExamService.ValidateExamSetup` | src/services/examService.ts:29-51 | the pushed errors are exactly the failing checks in check order; empty iff the exam is chosen, the trimmed name is non-empty, 1 ≤ count ≤ 100 and 1 ≤ hours ≤ 5; at most four |
| `ExamService.FailedChecksCharacterized` | src/services/examService.ts:33-47 | each error is reported iff its own check fails (name: iff it is all whitespace); no error iff the setup is valid |
| `ExamService.FailedChecksOrdered` | src/services/examService.ts:31-50 | at most four errors, strictly in the order the checks run |
| `ExamService.Messages` | src/services/examService.ts:34-46 | the pushed texts: one per failed check, in the same order |
| `ExamService.MessageInjective` | src/services/examService.ts:34-46 | different checks report different texts, so the messages identify the checks |
| `ExamService.Swap` | src/services/examService.ts:93 | the destructuring swap exchanges positions `i` and `j` and leaves every other position alone |
| `ExamService.SwapPermutes` | src/services/examService.ts:93 | a swap preserves the multiset of the working array and its freedom from repeats |
| `ExamService.ShuffleDown` | src/services/examService.ts:91-94 | the loop from `i` down to 1, each step swapping `i` with the drawn `j`; its contract keeps the length, and `ShuffleDownPermutes` proves the result a permutation |
| `ExamService.ShuffleDownPermutes` | src/services/examService.ts:91-94 | the Fisher–Yates steps from `i` down to 1 yield a permutation (same length, same multiset, no new repeats) |
| `ExamService.ShuffleInPlace` | src/services/examService.ts:91-94 | the in-place loop over the copy leaves it equal to the specified shuffle of its old contents |
| `ExamService.Shuffle` | src/services/examService.ts:90-94 | the copy shuffled from the last index down; its contract keeps the length, and `SampleIsPrefixOfPermutation` (through `ShuffleDownPermutes`) proves it a permutation of the pool |
| `ExamService.SliceEnd` | src/services/examService.ts:97 | the end index of `slice(0, count)` never passes the array length |
| `ExamService.Sample` | src/services/examService.ts:88-98 | `slice(0, count)` of the shuffled copy; its contract fixes the length at `slice`'s end index, and `SampleIsPrefixOfPermutation` proves it a prefix of a permutation of the pool, min(count, pool) long for count ≥ 0 |
| `ExamService.SampleIsPrefixOfPermutation` | src/services/examService.ts:88-98 | the sample is a prefix of a permutation of the pool; for count ≥ 0 its length is min(count, pool); no question appears more often than in the pool; a pool without repeats gives a sample without repeats |
| `ExamService.PrepareQuestions` | src/services/examService.ts:88-98 | the method copies the pool into an array, shuffles it in place and slices it; its result is the specified sample, of length given by `slice`'s end index, and a sub-multiset of the pool |
| `ExamService.SameAnswers` | src/services/examService.ts:68-72 | the per-question check of `calculateScore`: equal lengths and inclusion both ways; `ValidateAnswerIgnoresOrder` and `ValidateAnswerIsSetEquality` prove it order-blind and, for repeat-free lists, set equality |
| `ExamService.Verdicts` | src/services/examService.ts:63-75 | the loop's verdict for each position, one per question, read with `answers[i] \|\| []`; `Review.ReviewAgreesWithScoring` proves the review shows the same verdicts |
| `ExamService.CorrectCount` | src/services/examService.ts:56-83 | the number of positions judged correct; its contract bounds it by the number of questions, and `CalculateScore` proves the loop computes it and that it is the number of true verdicts |
| `ExamService.CalculateScore` | src/services/examService.ts:56-83 | the loop's count is the number of positions whose list has the keys' length with mutual inclusion (a missing list is `[]`), which is at most the number of questions; the score is count / total × 100; it lies in [0, 100] for a non-empty exam and is NaN for an empty one |
| `ExamService.ValidateAnswer` | src/services/examService.ts:147-158 | `validateAnswer`: false for a single-choice question without exactly one selection, otherwise the shared length-and-inclusion check; its contract: a wrong count on single choice is rejected, acceptance implies the check, and on multiple choice it is exactly the check; the lemmas below relate it to sets and to scoring |
| `ExamService.ValidateAnswerIgnoresOrder` | src/services/examService.ts:147-158 | the verdict of `validateAnswer` depends only on the multiset of the selection, not its order |
| `ExamService.ValidateAnswerIsSetEquality` | src/services/examService.ts:147-158 | for selections and keys without repeats, the verdict is set equality, plus exactly one selection on a single-choice question |
| `ExamService.SingleChoiceAcceptsOnlyKey` | src/services/examService.ts:148-157 | a single-choice question with one key accepts exactly that one-element selection |
| `ExamService.ValidateAnswerAgreesWithScoring` | src/services/examService.ts:147-158 | `validateAnswer` implies the scoring check; the two agree except on a single-choice question without exactly one key |
| `ExamService.EmptySelection` | src/services/examService.ts:148-157 | an empty selection is accepted only by a multiple-choice question with no keys |
| `ExamService.KeyList` | src/services/examService.ts:109-130 | the keys of the stats entries, position by position |
| `ExamService.FindKey` | src/services/examService.ts:111 | the `stats[key]` lookup returns the entry holding the key, or reports that no entry does |
| `ExamService.SumTotalsUpdate` | src/services/examService.ts:114 | replacing one entry changes the sum of totals by the difference of the two totals |
| `ExamService.CountsSnoc` | src/services/examService.ts:110-118 | one more position adds one to its key's count, and one to the answered count when it is answered |
| `ExamService.OccurrencesOfAbsent` | src/services/examService.ts:111-112 | a key that has not occurred yet has zero counts, as in a fresh `{ total: 0, answered: 0 }` entry |
| `ExamService.TallyStepExisting` | src/services/examService.ts:114-117 | counting a key that already has an entry keeps the tally invariant |
| `ExamService.TallyStepNew` | src/services/examService.ts:111-117 | creating and counting a new entry keeps the tally invariant |
| `ExamService.TallyStep` | src/services/examService.ts:110-118 | one iteration of the `forEach` keeps the tally invariant over the prefix |
| `ExamService.TallyBy` | src/services/examService.ts:109-130 | the loop builds a tally: one entry per distinct key and no other, each counting the positions of its key and the answered ones among them, with totals summing to the number of questions |
| `ExamService.CountsAreMultiplicities` | src/services/examService.ts:114-117 | an entry's total is its key's multiplicity among the keys; its answered count is the multiplicity among answered positions, never more than the total |
| `ExamService.TallyMeaning` | src/services/examService.ts:109-130 | every entry of a tally names a key that occurs, counts it exactly, and answered ≤ total |
| `ExamService.Categories` | src/services/examService.ts:110-111 | the category of each question, in order |
| `ExamService.Difficulties` | src/services/examService.ts:122-123 | the difficulty of each question, in order |
| `ExamService.AnsweredFlags` | src/services/examService.ts:115 | one flag per question, set iff its entry exists and is non-empty (`answers[index]?.length > 0`) |
| `ExamService.GetExamStats` | src/services/examService.ts:103-142 | total is the number of questions; answered is the number of answer keys (empty lists included); remaining = total − answered; percentage = answered / total × 100; both dictionaries are tallies of category and difficulty over the non-empty answers |
| `ExamService.ClockFields` | src/services/examService.ts:164-166 | for seconds ≥ 0, hours·3600 + minutes·60 + secs = seconds with minutes and secs in [0, 59] |
| `ExamService.Pad2Digits` | src/services/examService.ts:169 | a padded field is all digits, holds no `:`, reads back as its value, and has two characters below 100 |
| `ExamService.ParseClockOfJoin` | src/services/examService.ts:168-170 | three digit fields joined with `:` read back as hours, minutes and seconds |
| `ExamService.ParseClockOfFields` | src/services/examService.ts:168-170 | padded fields joined with `:` read back as their weighted sum |
| `ExamService.FormatTimeRemaining` | src/services/examService.ts:163-171 | hours, minutes and seconds, each `padStart(2, "0")`, joined with `:`; its contract: never shorter than `HH:MM:SS`; `FormatTimeRoundTrip` proves it reads back as the seconds |
| `ExamService.FormatTimeRoundTrip` | src/services/examService.ts:163-171 | the clock text of any seconds ≥ 0 reads back as exactly those seconds |
| `ExamService.FormatTimeLength` | src/services/examService.ts:163-171 | below 100 hours the clock text is exactly eight characters, `HH:MM:SS` |
| `ExamService.ShouldAutoSubmit` | src/services/examService.ts:176-185 | true iff the time is ≤ 0 or the number of answer keys equals the total |
| `ExamService.AutoSubmitWhenEveryQuestionAnswered` | src/services/examService.ts:182 | once every position 0 .. n−1 holds a key, the exam auto-submits |
| `ExamService.AutoSubmitCountsKeysNotPositions` | src/services/examService.ts:182 | a key outside 0 .. n−1 satisfies the count while question 0 is still open |
| `ExamTypes.AnswerAt` | src/components/TestingCenter/ExamRunner.tsx:63 | `answers[i] \|\| []`: the stored list, or `[]` for a missing key (an empty list is kept) |
| `Js.Percentage` | src/services/examService.ts:77 | `num / den × 100` as a JavaScript number: finite for den > 0, NaN for 0/0, Infinity for k/0 |
| `Js.PercentageBounds` | src/services/examService.ts:77 | a share of at most the whole is in [0, 100]; it is 100 iff the share is the whole and 0 iff it is empty |
| `Js.TrimEmptyIff` | src/services/examService.ts:37 | `s.trim()` is empty iff `s` is all whitespace |
| `Js.PaddedNatRoundTrip` | src/services/examService.ts:169 | `toString().padStart` of a natural number is all digits and reads back as the number |
| `Js.JoinThree` | src/services/examService.ts:168-170 | `[a, b, c].join(sep)` is `a sep b sep c` |
| `Js.SplitJoin` | src/services/examService.ts:170 | splitting a join at a separator that no part contains gives back the parts |
| `Runner.NextRemainingTime` | src/components/TestingCenter/ExamRunner.tsx:38-45 | the updater maps a time ≤ 1 to 0 and otherwise subtracts exactly 1; the result is never negative |
| `Runner.Countdown` | src/components/TestingCenter/ExamRunner.tsx:37-46 | the remaining time after k applications of the once-a-second updater; the lemmas below prove how it steps down, stops at zero and composes |
| `Runner.CountdownStepsDown` | src/components/TestingCenter/ExamRunner.tsx:37-46 | starting from n, k ≤ n ticks leave n − k |
| `Runner.CountdownStaysAtZero` | src/components/TestingCenter/ExamRunner.tsx:39-42 | once at zero, the clock stays at zero |
| `Runner.CountdownReachesZero` | src/components/TestingCenter/ExamRunner.tsx:37-46 | from n ≥ 1 the clock is positive for the first n − 1 ticks, shows 1 before the n-th tick and 0 from the n-th tick on |
| `Runner.CountdownAfter` | src/components/TestingCenter/ExamRunner.tsx:37-46 | ticking a times then b times is ticking a + b times |
| `Runner.CountdownNonNegative` | src/components/TestingCenter/ExamRunner.tsx:38-45 | a non-negative time never goes negative, however many ticks |
| `Runner.Without` | src/components/TestingCenter/ExamRunner.tsx:67 | `filter(id => id !== x)` keeps exactly the other ids and never grows |
| `Runner.WithoutAbsent` | src/components/TestingCenter/ExamRunner.tsx:67 | filtering out an absent id changes nothing |
| `Runner.WithoutMultiset` | src/components/TestingCenter/ExamRunner.tsx:67 | filtering removes every copy of the id and nothing else |
| `Runner.WithoutKeepsNoDup` | src/components/TestingCenter/ExamRunner.tsx:67 | filtering keeps a list free of repeats |
| `Runner.WithoutAppend` | src/components/TestingCenter/ExamRunner.tsx:67 | filtering distributes over concatenation |
| `Runner.Toggle` | src/components/TestingCenter/ExamRunner.tsx:63-73 | the id is present afterwards iff it was absent before; other ids are unaffected |
| `Runner.ToggleKeepsNoDup` | src/components/TestingCenter/ExamRunner.tsx:63-73 | toggling keeps a selection free of repeats |
| `Runner.ToggleTwice` | src/components/TestingCenter/ExamRunner.tsx:63-73 | toggling twice restores an absent id's list exactly, and a repeat-free list up to order |
| `Runner.ToggleTwiceAbsent` | src/components/TestingCenter/ExamRunner.tsx:63-73 | appending then removing an id restores the list |
| `Runner.ToggleTwicePresent` | src/components/TestingCenter/ExamRunner.tsx:64-73 | removing then appending an id that occurred once restores the multiset |
| `Runner.NoDupOccursOnce` | src/components/TestingCenter/ExamRunner.tsx:64 | in a repeat-free selection a present id occurs exactly once |
| `Runner.SelectAnswer` | src/components/TestingCenter/ExamRunner.tsx:58-74 | only the current position's entry changes, and its key is added; single choice stores `[answerId]`, multiple choice toggles it in `answers[i] \|\| []` |
| `Runner.DeselectKeepsKey` | src/components/TestingCenter/ExamRunner.tsx:63-68 | deselecting the only chosen option leaves an empty list under a key that still counts |
| `Runner.SelectionKeepsNoDup` | src/components/TestingCenter/ExamRunner.tsx:58-74 | a selection keeps the current entry free of repeats |
| `Runner.SingleSelectionHasOneOption` | src/components/TestingCenter/ExamRunner.tsx:59-61 | after a single-choice selection exactly one option is chosen and the position is answered |
| `Runner.ExamRunner.View` | src/components/TestingCenter/ExamRunner.tsx:90-127 | with the review open, only the review shows, over the sampled questions and the answers; otherwise, with a sampled question, the question page shows the current question's selection (`\|\| []`) and its 1-based number; with no sampled question the page render fails (`RenderFails`) |
| `Runner.ExamRunner.constructor` | src/components/TestingCenter/ExamRunner.tsx:25-30 | first question current; no answers; `timeLimit`·3600 seconds; the sample of 100 (min(pool, 100) questions from the pool, whatever count was set up); dialog and review closed; the class invariant holds (the current position names a sampled question whenever there is one) |
| `Runner.ExamRunner.HandleTimeUp` | src/components/TestingCenter/ExamRunner.tsx:51-53 | opens the review and changes nothing else |
| `Runner.ExamRunner.Tick` | src/components/TestingCenter/ExamRunner.tsx:37-46 | the time becomes the updater's value; the review opens exactly when the time was ≤ 1; answers and position are unchanged |
| `Runner.ExamRunner.HandleAnswerSelect` | src/components/TestingCenter/ExamRunner.tsx:55-75 | on a non-empty sample with the review closed (only the question page offers options), the answers become the specified selection at the current position; nothing else changes and the invariant is kept |
| `Runner.ExamRunner.SelectQuestion` | src/components/TestingCenter/ExamRunner.tsx:119 | with the review closed, moves to the clicked position, which the question list only offers below the sample size, and changes no answer; the invariant holds afterwards |
| `Runner.ExamRunner.HandleSubmit` | src/components/TestingCenter/ExamRunner.tsx:77-79 | with the review closed, only opens the confirm dialog |
| `Runner.ExamRunner.CancelSubmit` | src/components/TestingCenter/ExamRunner.tsx:153 | with the review closed, only closes the confirm dialog |
| `Runner.ExamRunner.ConfirmSubmit` | src/components/TestingCenter/ExamRunner.tsx:81-84 | with the review closed, closes the dialog and opens the review, keeping the answers |
| `Runner.ExamRunner.HandleFinishReview` | src/components/TestingCenter/ExamRunner.tsx:86-88 | from the open review, hands `onComplete` the current answers unchanged: exactly the map and questions the review shows |
| `Session.ShownTotal` | src/components/TestingCenter/index.tsx:61 | `exam?.questions.length \|\| 0`: 0 without an exam |
| `Session.ScreenOf` | src/components/TestingCenter/index.tsx:52-78 | the fail screen iff failed; else the result iff one is stored; else the runner iff exam and setup are both present; else the setup form |
| `Session.CompletionResult` | src/components/TestingCenter/index.tsx:31-34 | the stored count is the number of answer keys and the score that number over the pool size × 100 |
| `Session.CompletionDependsOnKeysOnly` | src/components/TestingCenter/index.tsx:31-34 | the stored result depends only on which positions hold a key, not on what was chosen |
| `Session.CompletionResultBounds` | src/components/TestingCenter/index.tsx:31-34 | with keys inside the pool, the count is at most the pool size and the score lies in [0, 100] |
| `Session.CompletionScoresWrongAnswer` | src/components/TestingCenter/index.tsx:31-34 | a one-question exam answered wrongly scores 100 with one correct answer, while `calculateScore` counts none |
| `Session.CompletionShowsZeroTotal` | src/components/TestingCenter/index.tsx:37-61 | after completion the result screen's total is 0 |
| `Session.CorrectedResult` | src/types/exam.ts:27-31 | the result with `calculateScore`'s count over the presented questions and their number as the total |
| `Session.CorrectedResultScores` | src/services/examService.ts:77 | the corrected score is in [0, 100]; it is 100 iff every question is correct and 0 iff none is |
| `Session.CorrectedResultOnWrongAnswer` | src/services/examService.ts:56-83 | the wrongly answered question scores 0 of 1 |
| `Session.CorrectedScreenOf` | src/components/TestingCenter/index.tsx:52-78 | the same priority as the screen selection (failed, result, runner with exam and setup, setup), with the result screen's score, count and total all read from the stored result |
| `Session.CorrectedScreenDiffersOnlyInTotal` | src/components/TestingCenter/index.tsx:52-78 | the corrected selection and the one as written pick the same screen and differ only in the result screen's total |
| `Session.CorrectedScreenShowsTotal` | src/components/TestingCenter/index.tsx:37-61 | after completion (exam cleared, setup kept, not failed) the corrected screen shows the score and count of `calculateScore` and the number of presented questions as the total, with no more correct answers than that |
| `Session.TestingCenter.constructor` | src/components/TestingCenter/index.tsx:10-16 | no exam, no setup, not failed, no result: the setup screen |
| `Session.TestingCenter.HandleStart` | src/components/TestingCenter/index.tsx:18-26 | a successful load stores the exam and the setup; a failed load changes nothing |
| `Session.TestingCenter.HandleComplete` | src/components/TestingCenter/index.tsx:28-38 | a no-op without an exam; otherwise stores the key-count result and clears the exam, so the result screen then shows a total of 0 |
| `Session.TestingCenter.HandleFail` | src/components/TestingCenter/index.tsx:40-43 | sets the failed flag and clears the exam, keeping setup and result; the fail screen shows |
| `Session.TestingCenter.HandleRestart` | src/components/TestingCenter/index.tsx:45-50 | back to the initial fields and the setup screen |
| `Review.IsAnswerCorrect` | src/components/TestingCenter/ExamReview.tsx:18-23 | false for a missing list; otherwise equal length with mutual inclusion |
| `Review.ClassifyOption` | src/components/TestingCenter/ExamReview.tsx:62-75 | each option is in exactly one of four classes, fixed by (selected, key) as 0-based positions |
| `Review.ReviewItemOf` | src/components/TestingCenter/ExamReview.tsx:36-75 | a question's 1-based number, its verdict, and one class per option |
| `Review.ReviewItems` | src/components/TestingCenter/ExamReview.tsx:36-38 | one item per sampled question, read with `answers[index] \|\| []` |
| `Review.ReviewAgreesWithScoring` | src/components/TestingCenter/ExamReview.tsx:37-38 | the review's verdicts are `calculateScore`'s verdicts, so it marks correct exactly as many questions as the score counts |
| `Review.CorrectQuestionHasOnlyGreenOrPlainOptions` | src/components/TestingCenter/ExamReview.tsx:62-75 | a question marked correct shows no wrong selection and no missed key |
| `Review.GreenOrPlainOptionsMeanCorrect` | src/components/TestingCenter/ExamReview.tsx:18-75 | for repeat-free lists naming options on the page, no wrong selection and no missed key means the question is marked correct |
| `Review.KeyPastLastOptionNeverCorrect` | src/components/TestingCenter/ExamReview.tsx:63-64 | a key past the last option position (such as a 1-based key) can never be matched from the page |
| `QuestionList.QuestionStatus` | src/components/TestingCenter/QuestionList.tsx:18-22 | current iff it is the current index, whatever the answer; else answered iff the list exists and is non-empty; else unanswered |
| `QuestionList.Grid` | src/components/TestingCenter/QuestionList.tsx:35-41 | 20 rows of 5; cell (r, c) holds r·5 + c when it is below the question count, else nothing |
| `QuestionList.Cell` | src/components/TestingCenter/QuestionList.tsx:35-41 | `questionIndex = rowIndex * 5 + colIndex`, shown only below the question count; `GridOnlyNamesListedPositions` and `GridPlacesEachPositionOnce` prove each listed position appears in exactly one cell |
| `QuestionList.GridPlacesEachPositionOnce` | src/components/TestingCenter/QuestionList.tsx:35-41 | each position below both the count and 100 is in exactly one cell, at row q / 5, column q % 5 |
| `QuestionList.GridOnlyNamesListedPositions` | src/components/TestingCenter/QuestionList.tsx:35-41 | a cell only names a real question below 100, and is empty iff r·5 + c is past the count |
| `QuestionList.Clicked` | src/components/TestingCenter/QuestionList.tsx:56 | a click selects exactly that cell's position |
| `Timer.FormatTime` | src/components/TestingCenter/Timer.tsx:11-16 | the template string of the three padded fields; its contract: the same text as `formatTimeRemaining` for every integer; `FormatTimeAgreesWithService` adds that it reads back as the seconds |
| `Timer.FormatTimeAgreesWithService` | src/components/TestingCenter/Timer.tsx:11-16 | the display's clock text of any seconds ≥ 0 reads back as exactly those seconds |
| `Timer.TimeColorOf` | src/components/TestingCenter/Timer.tsx:18-22 | red iff t ≤ 300, orange iff 300 < t ≤ 900, gray iff t > 900 |
| `Timer.ShowsWarning` | src/components/TestingCenter/Timer.tsx:30-34 | the warning line renders when `timeRemaining <= 300`; `WarningWhileRed` proves it shows exactly while the clock is red |
| `Timer.WarningWhileRed` | src/components/TestingCenter/Timer.tsx:18-34 | the warning shows iff the clock is red, and the colour only grows more severe as time runs down |
| `ResultScreen.IsPassing` | src/components/TestingCenter/ResultScreen.tsx:18 | `score >= 60` on a JavaScript number; `PassingIffNotRed`, `DivisionEdgeScores` and `FinitePassMark` prove it is "not red", false for NaN, true for Infinity and the 60 mark for finite scores |
| `ResultScreen.ScoreColorOf` | src/components/TestingCenter/ResultScreen.tsx:20-24 | green iff score ≥ 80, blue iff 60 ≤ score < 80, red iff not score ≥ 60 (NaN included) |
| `ResultScreen.StatusText` | src/components/TestingCenter/ResultScreen.tsx:46 | "Đạt" when passing, "Không đạt" otherwise; `PassingIffNotRed` proves it says "Đạt" iff the score passes |
| `ResultScreen.PassingIffNotRed` | src/components/TestingCenter/ResultScreen.tsx:18-46 | passing iff the colour is not red; the status text is "Đạt" iff passing |
| `ResultScreen.DivisionEdgeScores` | src/components/TestingCenter/ResultScreen.tsx:18-24 | a 0/0 score (NaN) fails in red; a k/0 score (Infinity) passes in green |
| `ResultScreen.FinitePassMark` | src/components/TestingCenter/ResultScreen.tsx:18-24 | a finite score passes iff it is ≥ 60 and is blue iff it is in [60, 80) |
| `ExamSetup.InitialForm` | src/components/TestingCenter/ExamSetup.tsx:13-18 | no exam, no name, 100 questions, 3 hours |
| `ExamSetup.FormErrors` | src/components/TestingCenter/ExamSetup.tsx:26-32 | no error iff an exam is chosen and the name is not all whitespace; at most two errors |
| `ExamSetup.FormErrorsArePrefixOfService` | src/components/TestingCenter/ExamSetup.tsx:26-32 | the form's errors are the first of the service's, in the same order; with both ranges respected the two validations agree |
| `ExamSetup.FormIgnoresRanges` | src/components/TestingCenter/ExamSetup.tsx:26-33 | the submit handler's checks read neither the question count nor the time limit, so values outside the inputs' ranges pass the handler while the service rejects them |
| `ExamSetup.SubmitDisabled` | src/components/TestingCenter/ExamSetup.tsx:138 | the button is disabled when the exam id or the untrimmed name is empty; `DisabledFormFails` proves a disabled form would fail the checks and that a name of spaces enables it anyway; `InitialFormRejected` proves the initial form disabled |
| `ExamSetup.DisabledFormFails` | src/components/TestingCenter/ExamSetup.tsx:26-138 | a disabled button implies failing checks; a name of spaces enables the button yet fails the trimmed check |
| `ExamSetup.InitialFormRejected` | src/components/TestingCenter/ExamSetup.tsx:13-138 | the initial form is disabled and would report both errors |
| `ExamSetup.SetupForm.constructor` | src/components/TestingCenter/ExamSetup.tsx:13-20 | the initial form and no errors |
| `ExamSetup.SetupForm.SetExamId` | src/components/TestingCenter/ExamSetup.tsx:62 | updates only the exam id |
| `ExamSetup.SetupForm.SetCandidateName` | src/components/TestingCenter/ExamSetup.tsx:84 | updates only the name |
| `ExamSetup.SetupForm.SetQuestionCount` | src/components/TestingCenter/ExamSetup.tsx:103 | updates only the question count |
| `ExamSetup.SetupForm.SetTimeLimit` | src/components/TestingCenter/ExamSetup.tsx:120 | updates only the time limit |
| `ExamSetup.SetupForm.HandleSubmit` | src/components/TestingCenter/ExamSetup.tsx:22-40 | stores the form's errors; calls `onStart` with the unchanged form data iff there are none |

## Left out

- `loadExam` (src/services/examService.ts:7-24) fetches a file and parses JSON. It is not modelled. `handleStart` takes its outcome as a `LoadOutcome` parameter: the exam, or a failure.
- `useFullScreen` is not part of this model. Leaving full screen is the `HandleFail` call it triggers.
- Timer scheduling is not modelled: `setInterval`, the effect re-registered on every answer change, and `clearInterval`. Each second is a `Tick` call. Once the time is 0, further ticks change nothing, which stands in for the cleared interval.
- `Math.random` is replaced by the `picks` parameter. The model covers every possible random draw, not their distribution.
- Floating point is not modelled. Scores are exact reals wrapped in `Num`, with NaN for 0/0 and Infinity for k/0. Rounding and `toFixed(1)` are out of scope.
- `parseInt` returning NaN on an emptied number input is not modelled. The setters take integers.
- `ExamSetup.SetupForm.HandleSubmit`: the number inputs' `min`/`max` attributes (1–100 questions, 1–5 hours, src/components/TestingCenter/ExamSetup.tsx:98-119) and the browser's constraint validation that stops an out-of-range submit are not modelled. The model's handler accepts counts and limits that the browser would stop before `handleSubmit` runs.
- Rendering is not modelled: CSS classes, icons, `QuestionDisplay`, `FailScreen`, the UI primitives and `console.log`. Only the decisions they draw on are kept: status, colour, class, verdict and screen.
- Validation messages are `SetupError` codes. `Message` gives each code's text.
- JavaScript object keys are not modelled:
  - string conversion of numeric keys;
  - prototype names such as a category called `constructor`;
  - insertion order of numeric keys.

  The stats dictionaries are lists of entries in first-insertion order, keyed by the category string or the difficulty.
- Strings are sequences of characters, not UTF-16 code units. `trim` removes the fixed list of whitespace and line-terminator code points in `Js.IsWhitespace`; a later Unicode version's spaces are not tracked.
- `ExamService.SliceEnd`: a negative count follows the code's `slice`. It counts back from the end, so it is not an empty result.
- `Runner.ExamRunner.View`: with an empty pool the sample is empty. The question page then hands `QuestionDisplay` the question `randomizedQuestions[0]`, which is `undefined` (src/components/TestingCenter/ExamRunner.tsx:105), and `QuestionDisplay` reads its `category` (src/components/TestingCenter/QuestionDisplay.tsx:27), so the first render throws. `View` returns `RenderFails` there instead of a page.
- `Runner.ExamRunner.constructor` accepts an empty pool, as the code does. The model does not stop the class at the failed render: `Tick`, `HandleSubmit`, `ConfirmSubmit` and the other handlers still apply to it, though the program never reaches them.
- `Runner.ExamRunner.HandleAnswerSelect` requires a non-empty sample, since only a rendered question page offers options. The class invariant then keeps the current position inside the sample, as the question list only offers sampled positions.
- `Runner.ExamRunner.HandleAnswerSelect`, `SelectQuestion`, `HandleSubmit`, `CancelSubmit` and `ConfirmSubmit` require the review to be closed: once it opens, the render is only the review (src/components/TestingCenter/ExamRunner.tsx:90-98), so their controls are gone. Only `Tick` and `HandleFinishReview` apply from then on, and neither changes the answers.
- `Runner.ToggleTwice`: when the id was present, toggling twice moves it to the end of the list. So only the multiset is restored, and only for a repeat-free list.
- `ExamService.ParseClock`: a reader for `H:M:S` texts that exists only as the round-trip partner of the clock formatters. The source has no such function.
- `Session.TestingCenter.HandleComplete` follows the code as written. The corrected result in the findings below is not wired into the class.

## Findings

| source | as written | input that shows it | evidently intended | confidence | as-written member | corrected member |
|---|---|---|---|---|---|---|
| src/components/TestingCenter/index.tsx:31-34 | the score and `correctAnswers` count answer keys, not correct answers | one question with key `[0]`, answered `[1]`: score 100, 1 correct | `calculateScore`'s count of correct questions, as a percentage of the presented questions | high; not executed | `Session.CompletionScoresWrongAnswer` | `Session.CorrectedResultScores` |
| src/components/TestingCenter/index.tsx:37-61 | the exam is cleared before the result screen reads its question count, so the total is always 0 | any completed exam | the number of presented questions as the total | high; not executed | `Session.CompletionShowsZeroTotal` | `Session.CorrectedScreenShowsTotal` |
