// The exam service: setup validation, the Fisher–Yates sampler, scoring,
// progress statistics, the per-question answer check, the clock text and
// the auto-submit rule.

module ExamService {

  import opened Js
  import opened ExamTypes
  import opened Sequences

  // ---------------------------------------------------------------------
  // validateExamSetup

  /** The four checks of `validateExamSetup`, in the order they run. */
  datatype SetupError = ExamNotChosen | NameEmpty | QuestionCountOutOfRange | TimeLimitOutOfRange

  /** The text reported for each failed check. */
  function Message(e: SetupError): string
  {
    match e
    case ExamNotChosen => "Vui lòng chọn môn thi"
    case NameEmpty => "Vui lòng nhập tên thí sinh"
    case QuestionCountOutOfRange => "Số câu hỏi phải từ 1 đến 100"
    case TimeLimitOutOfRange => "Thời gian làm bài phải từ 1 đến 5 giờ"
  }

  function Rank(e: SetupError): nat
  {
    match e
    case ExamNotChosen => 0
    case NameEmpty => 1
    case QuestionCountOutOfRange => 2
    case TimeLimitOutOfRange => 3
  }

  predicate QuestionCountInRange(count: int)
  {
    1 <= count <= 100
  }

  predicate TimeLimitInRange(hours: int)
  {
    1 <= hours <= 5
  }

  /** Every check of `validateExamSetup` passes. */
  predicate SetupValid(setup: ExamSetupData)
  {
    && setup.examId != ""
    && Trim(setup.candidateName) != ""
    && QuestionCountInRange(setup.questionCount)
    && TimeLimitInRange(setup.timeLimit)
  }

  /** The checks that fail, in the order `validateExamSetup` runs them. */
  function FailedChecks(setup: ExamSetupData): (r: seq<SetupError>)
    ensures r == [] <==> SetupValid(setup)
  {
    (if setup.examId == "" then [ExamNotChosen] else [])
    + (if Trim(setup.candidateName) == "" then [NameEmpty] else [])
    + (if !QuestionCountInRange(setup.questionCount) then [QuestionCountOutOfRange] else [])
    + (if !TimeLimitInRange(setup.timeLimit) then [TimeLimitOutOfRange] else [])
  }

  /** The texts of the failed checks, in the same order. */
  function Messages(errors: seq<SetupError>): (r: seq<string>)
    ensures |r| == |errors|
    ensures forall i :: 0 <= i < |errors| ==> r[i] == Message(errors[i])
  {
    if errors == [] then [] else Messages(errors[..|errors| - 1]) + [Message(errors[|errors| - 1])]
  }

  /** Different checks report different texts. */
  lemma MessageInjective(e1: SetupError, e2: SetupError)
    ensures Message(e1) == Message(e2) <==> e1 == e2
  {
    assert |Message(ExamNotChosen)| == 21 && |Message(NameEmpty)| == 26;
    assert |Message(QuestionCountOutOfRange)| == 28 && |Message(TimeLimitOutOfRange)| == 37;
  }

  /**
   * Each check is reported exactly when it fails, the reports come in check
   * order (so there are at most four), and none is reported exactly when the
   * setup is valid.
   */
  lemma FailedChecksCharacterized(setup: ExamSetupData)
    ensures ExamNotChosen in FailedChecks(setup) <==> setup.examId == ""
    ensures NameEmpty in FailedChecks(setup) <==> AllWhitespace(setup.candidateName)
    ensures QuestionCountOutOfRange in FailedChecks(setup) <==> !QuestionCountInRange(setup.questionCount)
    ensures TimeLimitOutOfRange in FailedChecks(setup) <==> !TimeLimitInRange(setup.timeLimit)
    ensures FailedChecks(setup) == [] <==> SetupValid(setup)
  {
    TrimEmptyIff(setup.candidateName);
  }

  lemma FailedChecksOrdered(setup: ExamSetupData)
    ensures |FailedChecks(setup)| <= 4
    ensures forall i, j :: 0 <= i < j < |FailedChecks(setup)| ==>
              Rank(FailedChecks(setup)[i]) < Rank(FailedChecks(setup)[j])
  {
  }

  /**
   * The list of messages is modelled by the checks that produced them, in
   * push order; `Messages` gives the texts.
   */
  method ValidateExamSetup(setup: ExamSetupData) returns (errors: seq<SetupError>)
    ensures errors == FailedChecks(setup)
    ensures errors == [] <==> SetupValid(setup)
    ensures |errors| <= 4
  {
    errors := [];
    if setup.examId == "" {
      errors := errors + [ExamNotChosen];
    }
    if Trim(setup.candidateName) == "" {
      errors := errors + [NameEmpty];
    }
    if setup.questionCount < 1 || setup.questionCount > 100 {
      errors := errors + [QuestionCountOutOfRange];
    }
    if setup.timeLimit < 1 || setup.timeLimit > 5 {
      errors := errors + [TimeLimitOutOfRange];
    }
    FailedChecksCharacterized(setup);
    FailedChecksOrdered(setup);
  }

  // ---------------------------------------------------------------------
  // prepareQuestions

  /**
   * The values `Math.floor(Math.random() * (i + 1))` takes: `picks[i]` is the
   * partner of position `i` (`picks[0]` is never used).
   */
  predicate ValidPicks(n: nat, picks: seq<int>)
  {
    |picks| == n && forall i :: 0 <= i < n ==> 0 <= picks[i] <= i
  }

  /** `[s[i], s[j]] = [s[j], s[i]]` */
  function Swap<T>(s: seq<T>, i: nat, j: nat): (r: seq<T>)
    requires i < |s| && j < |s|
    ensures |r| == |s| && r[i] == s[j] && r[j] == s[i]
    ensures forall k :: 0 <= k < |s| && k != i && k != j ==> r[k] == s[k]
  {
    s[i := s[j]][j := s[i]]
  }

  lemma SwapPermutes<T>(s: seq<T>, i: nat, j: nat)
    requires i < |s| && j < |s|
    ensures multiset(Swap(s, i, j)) == multiset(s)
    ensures NoDup(s) ==> NoDup(Swap(s, i, j))
  {
    var r := Swap(s, i, j);
    if NoDup(s) {
      forall a, b | 0 <= a < b < |r| ensures r[a] != r[b] {
        var a' := if a == i then j else if a == j then i else a;
        var b' := if b == i then j else if b == j then i else b;
        assert r[a] == s[a'] && r[b] == s[b'];
      }
    }
  }

  /** The Fisher–Yates steps `i, i-1, ..., 1` applied to `s`. */
  function ShuffleDown<T>(s: seq<T>, picks: seq<int>, i: int): (r: seq<T>)
    requires ValidPicks(|s|, picks) && i < |s|
    ensures |r| == |s|
    decreases i
  {
    if i <= 0 then s else ShuffleDown(Swap(s, i, picks[i]), picks, i - 1)
  }

  /** The loop of `prepareQuestions`, from the last index down to 1. */
  function Shuffle<T>(s: seq<T>, picks: seq<int>): (r: seq<T>)
    requires ValidPicks(|s|, picks)
    ensures |r| == |s|
  {
    ShuffleDown(s, picks, |s| - 1)
  }

  /** The end index `slice(0, count)` uses: a negative count counts back from the end. */
  function SliceEnd(n: nat, count: int): (e: nat)
    ensures e <= n
  {
    if count < 0 then (if n + count > 0 then n + count else 0)
    else if count < n then count
    else n
  }

  /** What `prepareQuestions(questions, count)` returns for the given random picks. */
  function Sample<T>(questions: seq<T>, count: int, picks: seq<int>): (r: seq<T>)
    requires ValidPicks(|questions|, picks)
    ensures |r| == SliceEnd(|questions|, count)
  {
    Shuffle(questions, picks)[..SliceEnd(|questions|, count)]
  }

  lemma {:induction false} ShuffleDownPermutes<T>(s: seq<T>, picks: seq<int>, i: int)
    requires ValidPicks(|s|, picks) && i < |s|
    ensures |ShuffleDown(s, picks, i)| == |s|
    ensures multiset(ShuffleDown(s, picks, i)) == multiset(s)
    ensures NoDup(s) ==> NoDup(ShuffleDown(s, picks, i))
    decreases i
  {
    if i > 0 {
      SwapPermutes(s, i, picks[i]);
      ShuffleDownPermutes(Swap(s, i, picks[i]), picks, i - 1);
    }
  }

  /**
   * The sample is a prefix of a permutation of the pool: of length
   * `min(count, |pool|)` for a non-negative count, never holding a question
   * more often than the pool does, and without repeats when the pool has none.
   */
  lemma SampleIsPrefixOfPermutation<T>(questions: seq<T>, count: int, picks: seq<int>)
    requires ValidPicks(|questions|, picks)
    ensures |Shuffle(questions, picks)| == |questions|
    ensures multiset(Shuffle(questions, picks)) == multiset(questions)
    ensures Sample(questions, count, picks) <= Shuffle(questions, picks)
    ensures |Sample(questions, count, picks)| == SliceEnd(|questions|, count)
    ensures 0 <= count ==> |Sample(questions, count, picks)| == if count < |questions| then count else |questions|
    ensures count >= |questions| ==> multiset(Sample(questions, count, picks)) == multiset(questions)
    ensures multiset(Sample(questions, count, picks)) <= multiset(questions)
    ensures NoDup(questions) ==> NoDup(Sample(questions, count, picks))
  {
    var shuffled := Shuffle(questions, picks);
    ShuffleDownPermutes(questions, picks, |questions| - 1);
    var e := SliceEnd(|questions|, count);
    assert shuffled == shuffled[..e] + shuffled[e..];
    assert multiset(shuffled) == multiset(shuffled[..e]) + multiset(shuffled[e..]);
  }

  /** The Fisher–Yates loop of `prepareQuestions`, on the copy it made. */
  method ShuffleInPlace(shuffled: array<Question>, picks: seq<int>)
    requires ValidPicks(shuffled.Length, picks)
    modifies shuffled
    ensures shuffled[..] == Shuffle(old(shuffled[..]), picks)
  {
    ghost var original := shuffled[..];
    var i := shuffled.Length - 1;
    while i > 0
      invariant -1 <= i < shuffled.Length
      invariant ShuffleDown(shuffled[..], picks, i) == Shuffle(original, picks)
      decreases i
    {
      var j := picks[i];
      ghost var before := shuffled[..];
      shuffled[i], shuffled[j] := shuffled[j], shuffled[i];
      assert shuffled[..] == Swap(before, i, j);
      i := i - 1;
    }
  }

  /**
   * `prepareQuestions(questions, count)`: shuffles a copy of the pool and
   * keeps its first `count` entries; the pool itself is a value and is left
   * as it was.
   */
  method PrepareQuestions(questions: seq<Question>, count: int, picks: seq<int>)
    returns (prepared: seq<Question>)
    requires ValidPicks(|questions|, picks)
    ensures prepared == Sample(questions, count, picks)
    ensures |prepared| == SliceEnd(|questions|, count)
    ensures multiset(prepared) <= multiset(questions)
  {
    // the copy `[...questions]`
    var shuffled := new Question[|questions|](k requires 0 <= k < |questions| => questions[k]);
    assert shuffled[..] == questions;
    ShuffleInPlace(shuffled, picks);
    prepared := shuffled[..SliceEnd(|questions|, count)];
    SampleIsPrefixOfPermutation(questions, count, picks);
  }

  // ---------------------------------------------------------------------
  // calculateScore, validateAnswer

  /**
   * The check shared by scoring, `validateAnswer` and the review: equal
   * lengths and every element of each list included in the other.
   */
  predicate SameAnswers(user: seq<int>, correct: seq<int>)
  {
    && |user| == |correct|
    && (forall a :: a in user ==> a in correct)
    && (forall a :: a in correct ==> a in user)
  }

  /** The verdict `calculateScore` gives each position of `questions`. */
  function Verdicts(questions: seq<Question>, answers: Answers): (r: seq<bool>)
    ensures |r| == |questions|
  {
    seq(|questions|, i requires 0 <= i < |questions| =>
      SameAnswers(AnswerAt(answers, i), questions[i].correctAnswers))
  }

  /** The number of positions scored correct. */
  function CorrectCount(questions: seq<Question>, answers: Answers): (c: nat)
    ensures c <= |questions|
  {
    CountTrue(Verdicts(questions, answers), |questions|)
  }

  method CalculateScore(questions: seq<Question>, answers: Answers)
    returns (score: Num, correctAnswers: nat)
    ensures correctAnswers == CorrectCount(questions, answers)
    ensures correctAnswers == |TrueBelow(Verdicts(questions, answers), |questions|)|
    ensures correctAnswers <= |questions|
    ensures score == Percentage(correctAnswers, |questions|)
    ensures |questions| > 0 ==> score.Finite? && 0.0 <= score.value <= 100.0
    ensures |questions| == 0 ==> score == NaN
  {
    var correct := 0;
    var total := |questions|;
    var index := 0;
    while index < |questions|
      invariant index <= |questions|
      invariant correct == CountTrue(Verdicts(questions, answers), index)
    {
      var userAnswers := AnswerAt(answers, index);
      if SameAnswers(userAnswers, questions[index].correctAnswers) {
        correct := correct + 1;
      }
      index := index + 1;
    }
    score := Percentage(correct, total);
    correctAnswers := correct;
    CountTrueIsCardinality(Verdicts(questions, answers), total);
    if total > 0 {
      PercentageBounds(correct, total);
    }
  }

  function ValidateAnswer(question: Question, selectedAnswers: seq<int>): (r: bool)
    ensures question.questionType == Single && |selectedAnswers| != 1 ==> !r
    ensures r ==> SameAnswers(selectedAnswers, question.correctAnswers)
    ensures question.questionType == Multiple ==> (r <==> SameAnswers(selectedAnswers, question.correctAnswers))
  {
    if question.questionType == Single && |selectedAnswers| != 1 then false
    else SameAnswers(selectedAnswers, question.correctAnswers)
  }

  /** The verdict does not depend on the order of the selection. */
  lemma ValidateAnswerIgnoresOrder(question: Question, a: seq<int>, b: seq<int>)
    requires multiset(a) == multiset(b)
    ensures ValidateAnswer(question, a) == ValidateAnswer(question, b)
  {
    assert |a| == |multiset(a)| && |b| == |multiset(b)|;
    forall x ensures x in a <==> x in b {
      assert x in a <==> x in multiset(a);
      assert x in b <==> x in multiset(b);
    }
  }

  /**
   * For selections and keys without repeats, the check is set equality
   * (plus exactly one selection for a single-choice question).
   */
  lemma ValidateAnswerIsSetEquality(question: Question, selected: seq<int>)
    requires NoDup(selected) && NoDup(question.correctAnswers)
    ensures ValidateAnswer(question, selected) <==>
              (question.questionType == Single ==> |selected| == 1)
              && Elements(selected) == Elements(question.correctAnswers)
  {
    var c := question.correctAnswers;
    NoDupCardinality(selected);
    NoDupCardinality(c);
    if Elements(selected) == Elements(c) {
      forall a ensures a in selected <==> a in c {
        assert a in selected <==> a in Elements(selected);
        assert a in c <==> a in Elements(c);
      }
    }
    if SameAnswers(selected, c) {
      forall a ensures a in Elements(selected) <==> a in Elements(c) {
        assert a in selected <==> a in Elements(selected);
        assert a in c <==> a in Elements(c);
      }
    }
  }

  /** A single-choice question with one key accepts exactly that key. */
  lemma SingleChoiceAcceptsOnlyKey(question: Question, selected: seq<int>)
    requires question.questionType == Single && |question.correctAnswers| == 1
    ensures ValidateAnswer(question, selected) <==> selected == question.correctAnswers
  {
    var key := question.correctAnswers[0];
    assert question.correctAnswers == [key];
    if ValidateAnswer(question, selected) {
      assert |selected| == 1 && selected[0] in selected;
      assert selected == [selected[0]] && selected[0] == key;
    }
  }

  /**
   * `validateAnswer` and the scoring check differ only on a single-choice
   * question whose key list does not have exactly one element.
   */
  lemma ValidateAnswerAgreesWithScoring(question: Question, selected: seq<int>)
    ensures ValidateAnswer(question, selected) ==> SameAnswers(selected, question.correctAnswers)
    ensures question.questionType == Multiple || |question.correctAnswers| == 1 ==>
              ValidateAnswer(question, selected) == SameAnswers(selected, question.correctAnswers)
  {
  }

  /** An empty selection is accepted only by a multiple-choice question with no keys. */
  lemma EmptySelection(question: Question)
    ensures ValidateAnswer(question, []) <==> question.questionType == Multiple && question.correctAnswers == []
  {
  }

  // ---------------------------------------------------------------------
  // getExamStats

  /** One entry of `categoryStats` or `difficultyStats`. */
  datatype Bucket<K> = Bucket(key: K, total: nat, answered: nat)

  datatype Progress = Progress(total: nat, answered: nat, remaining: int, percentage: Num)

  /** The dictionaries are kept as entry lists in first-insertion order. */
  datatype ExamStats = ExamStats(
    progress: Progress,
    categoryStats: seq<Bucket<string>>,
    difficultyStats: seq<Bucket<Difficulty>>)

  /** The entries' keys, in order. */
  ghost function KeyList<K>(buckets: seq<Bucket<K>>): (r: seq<K>)
    ensures |r| == |buckets| && forall p :: 0 <= p < |buckets| ==> r[p] == buckets[p].key
  {
    seq(|buckets|, p requires 0 <= p < |buckets| => buckets[p].key)
  }

  function SumTotals<K>(buckets: seq<Bucket<K>>): nat
  {
    if buckets == [] then 0 else SumTotals(buckets[..|buckets| - 1]) + buckets[|buckets| - 1].total
  }

  /** How many positions hold `k`. */
  ghost function Occurrences<K>(keys: seq<K>, k: K): nat
  {
    if keys == [] then 0
    else Occurrences(keys[..|keys| - 1], k) + (if keys[|keys| - 1] == k then 1 else 0)
  }

  /** How many positions hold `k` and are flagged. */
  ghost function FlaggedOccurrences<K>(keys: seq<K>, flags: seq<bool>, k: K): nat
    requires |flags| == |keys|
  {
    if keys == [] then 0
    else FlaggedOccurrences(keys[..|keys| - 1], flags[..|keys| - 1], k)
         + (if keys[|keys| - 1] == k && flags[|keys| - 1] then 1 else 0)
  }

  /** The keys whose flag is set, in order. */
  function FlaggedKeys<K>(keys: seq<K>, flags: seq<bool>): seq<K>
    requires |flags| == |keys|
  {
    if keys == [] then []
    else FlaggedKeys(keys[..|keys| - 1], flags[..|keys| - 1]) + (if flags[|keys| - 1] then [keys[|keys| - 1]] else [])
  }

  /** The entries' keys are exactly the keys that occur. */
  ghost predicate KeysCovered<K>(buckets: seq<Bucket<K>>, keys: seq<K>)
  {
    && (forall k :: k in KeyList(buckets) ==> k in keys)
    && (forall k :: k in keys ==> k in KeyList(buckets))
  }

  ghost predicate CountsMatch<K>(buckets: seq<Bucket<K>>, keys: seq<K>, answered: seq<bool>)
    requires |answered| == |keys|
  {
    forall p :: 0 <= p < |buckets| ==>
      && buckets[p].total == Occurrences(keys, buckets[p].key)
      && buckets[p].answered == FlaggedOccurrences(keys, answered, buckets[p].key)
  }

  /**
   * `buckets` tallies `keys`: one entry per distinct key and no other, each
   * counting the positions with that key and, of those, the ones flagged
   * answered; the totals add up to the number of positions.
   */
  ghost predicate IsTally<K>(buckets: seq<Bucket<K>>, keys: seq<K>, answered: seq<bool>)
    requires |answered| == |keys|
  {
    && NoDup(KeyList(buckets))
    && KeysCovered(buckets, keys)
    && CountsMatch(buckets, keys, answered)
    && SumTotals(buckets) == |keys|
  }

  lemma {:induction false} SumTotalsUpdate<K>(buckets: seq<Bucket<K>>, p: nat, b: Bucket<K>)
    requires p < |buckets|
    ensures SumTotals(buckets[p := b]) == SumTotals(buckets) - buckets[p].total + b.total
  {
    var n := |buckets|;
    if p == n - 1 {
      assert buckets[p := b][..n - 1] == buckets[..n - 1];
    } else {
      assert buckets[p := b][..n - 1] == buckets[..n - 1][p := b];
      SumTotalsUpdate(buckets[..n - 1], p, b);
    }
  }

  /** The entry after counting one more position with its key. */
  function Bump<K>(b: Bucket<K>, answered: bool): Bucket<K>
  {
    b.(total := b.total + 1, answered := if answered then b.answered + 1 else b.answered)
  }

  lemma CountsSnoc<K>(keys: seq<K>, flags: seq<bool>, key: K, flag: bool, k: K)
    requires |flags| == |keys|
    ensures Occurrences(keys + [key], k) == Occurrences(keys, k) + (if key == k then 1 else 0)
    ensures FlaggedOccurrences(keys + [key], flags + [flag], k)
            == FlaggedOccurrences(keys, flags, k) + (if key == k && flag then 1 else 0)
  {
    assert (keys + [key])[..|keys|] == keys;
    assert (flags + [flag])[..|keys|] == flags;
  }

  lemma {:induction false} OccurrencesOfAbsent<K>(keys: seq<K>, flags: seq<bool>, k: K)
    requires |flags| == |keys| && k !in keys
    ensures Occurrences(keys, k) == 0
    ensures FlaggedOccurrences(keys, flags, k) == 0
  {
    if keys != [] {
      var n := |keys|;
      assert keys == keys[..n - 1] + [keys[n - 1]];
      OccurrencesOfAbsent(keys[..n - 1], flags[..n - 1], k);
    }
  }

  /** Counting a key that already has an entry bumps that entry. */
  lemma TallyStepExisting<K>(buckets: seq<Bucket<K>>, keys: seq<K>, answered: seq<bool>, key: K, flag: bool, p: nat)
    requires |answered| == |keys| && IsTally(buckets, keys, answered)
    requires p < |buckets| && buckets[p].key == key
    ensures IsTally(buckets[p := Bump(buckets[p], flag)], keys + [key], answered + [flag])
  {
    var next := buckets[p := Bump(buckets[p], flag)];
    assert KeyList(next) == KeyList(buckets);
    assert key in KeyList(buckets);
    forall q | 0 <= q < |next|
      ensures next[q].total == Occurrences(keys + [key], next[q].key)
      ensures next[q].answered == FlaggedOccurrences(keys + [key], answered + [flag], next[q].key)
    {
      CountsSnoc(keys, answered, key, flag, next[q].key);
      if q != p {
        assert KeyList(buckets)[q] != KeyList(buckets)[p];
      }
    }
    SumTotalsUpdate(buckets, p, Bump(buckets[p], flag));
  }

  /** Counting a key that has no entry yet appends one. */
  lemma TallyStepNew<K>(buckets: seq<Bucket<K>>, keys: seq<K>, answered: seq<bool>, key: K, flag: bool)
    requires |answered| == |keys| && IsTally(buckets, keys, answered)
    requires key !in KeyList(buckets)
    ensures IsTally(buckets + [Bump(Bucket(key, 0, 0), flag)], keys + [key], answered + [flag])
  {
    var next := buckets + [Bump(Bucket(key, 0, 0), flag)];
    assert KeyList(next) == KeyList(buckets) + [key];
    assert key !in keys;
    OccurrencesOfAbsent(keys, answered, key);
    forall q | 0 <= q < |next|
      ensures next[q].total == Occurrences(keys + [key], next[q].key)
      ensures next[q].answered == FlaggedOccurrences(keys + [key], answered + [flag], next[q].key)
    {
      CountsSnoc(keys, answered, key, flag, next[q].key);
      if q < |buckets| {
        assert next[q].key == KeyList(buckets)[q];
      }
    }
    assert NoDup(KeyList(next)) by {
      var l := KeyList(buckets);
      forall i, j | 0 <= i < j < |l| + 1 ensures (l + [key])[i] != (l + [key])[j] {
        if j == |l| {
          assert (l + [key])[i] == l[i];
        }
      }
    }
    assert next[..|buckets|] == buckets;
  }

  /** The position of `key` among the entries, or -1: the `stats[key]` lookup. */
  function FindKey<K(==)>(buckets: seq<Bucket<K>>, key: K): (p: int)
    ensures -1 <= p < |buckets|
    ensures p >= 0 ==> buckets[p].key == key
    ensures p < 0 ==> key !in KeyList(buckets)
  {
    if buckets == [] then -1
    else if buckets[0].key == key then 0
    else
      var r := FindKey(buckets[1..], key);
      assert KeyList(buckets) == [buckets[0].key] + KeyList(buckets[1..]);
      if r < 0 then -1 else r + 1
  }

  /** One step of the tallying loop, at position `i`, in the loop's own terms. */
  lemma TallyStep<K>(buckets: seq<Bucket<K>>, keys: seq<K>, answered: seq<bool>, i: nat, p: int)
    requires |answered| == |keys| && i < |keys|
    requires IsTally(buckets, keys[..i], answered[..i])
    requires -1 <= p < |buckets|
    requires p >= 0 ==> buckets[p].key == keys[i]
    requires p < 0 ==> keys[i] !in KeyList(buckets)
    ensures p < 0 ==> IsTally(buckets + [Bump(Bucket(keys[i], 0, 0), answered[i])], keys[..i + 1], answered[..i + 1])
    ensures p >= 0 ==> IsTally(buckets[p := Bump(buckets[p], answered[i])], keys[..i + 1], answered[..i + 1])
  {
    assert keys[..i + 1] == keys[..i] + [keys[i]];
    assert answered[..i + 1] == answered[..i] + [answered[i]];
    if p < 0 {
      TallyStepNew(buckets, keys[..i], answered[..i], keys[i], answered[i]);
    } else {
      TallyStepExisting(buckets, keys[..i], answered[..i], keys[i], answered[i], p);
    }
  }

  /** The counts are the multiplicities of each key among all and among the answered positions. */
  lemma {:induction false} CountsAreMultiplicities<K>(keys: seq<K>, flags: seq<bool>, k: K)
    requires |flags| == |keys|
    ensures Occurrences(keys, k) == multiset(keys)[k]
    ensures FlaggedOccurrences(keys, flags, k) == multiset(FlaggedKeys(keys, flags))[k]
    ensures FlaggedOccurrences(keys, flags, k) <= Occurrences(keys, k)
  {
    if keys != [] {
      var n := |keys|;
      CountsAreMultiplicities(keys[..n - 1], flags[..n - 1], k);
      assert keys == keys[..n - 1] + [keys[n - 1]];
    }
  }

  /** The tallying loop `getExamStats` runs once per dictionary. */
  method TallyBy<K(==)>(keys: seq<K>, answered: seq<bool>) returns (buckets: seq<Bucket<K>>)
    requires |answered| == |keys|
    ensures IsTally(buckets, keys, answered)
  {
    buckets := [];
    var i := 0;
    while i < |keys|
      invariant 0 <= i <= |keys|
      invariant IsTally(buckets, keys[..i], answered[..i])
    {
      var key, flag := keys[i], answered[i];
      var p := FindKey(buckets, key);
      TallyStep(buckets, keys, answered, i, p);
      if p < 0 {
        // `stats[key] = { total: 0, answered: 0 }`, then counted
        buckets := buckets + [Bump(Bucket(key, 0, 0), flag)];
      } else {
        buckets := buckets[p := Bump(buckets[p], flag)];
      }
      i := i + 1;
    }
    assert keys[..i] == keys && answered[..i] == answered;
  }

  /**
   * What a tally states about each entry: its total is how often its key
   * occurs, its answered count how often among answered positions, and never
   * more than the total.
   */
  lemma TallyMeaning<K>(buckets: seq<Bucket<K>>, keys: seq<K>, answered: seq<bool>, p: nat)
    requires |answered| == |keys| && IsTally(buckets, keys, answered) && p < |buckets|
    ensures buckets[p].key in keys
    ensures buckets[p].total == multiset(keys)[buckets[p].key]
    ensures buckets[p].answered == multiset(FlaggedKeys(keys, answered))[buckets[p].key]
    ensures buckets[p].answered <= buckets[p].total
  {
    CountsAreMultiplicities(keys, answered, buckets[p].key);
  }

  function Categories(questions: seq<Question>): (r: seq<string>)
    ensures |r| == |questions|
    ensures forall k :: 0 <= k < |questions| ==> r[k] == questions[k].category
  {
    seq(|questions|, k requires 0 <= k < |questions| => questions[k].category)
  }

  function Difficulties(questions: seq<Question>): (r: seq<Difficulty>)
    ensures |r| == |questions|
    ensures forall k :: 0 <= k < |questions| ==> r[k] == questions[k].difficulty
  {
    seq(|questions|, k requires 0 <= k < |questions| => questions[k].difficulty)
  }

  /** Position `k` holds a non-empty answer. */
  function AnsweredFlags(questions: seq<Question>, answers: Answers): (r: seq<bool>)
    ensures |r| == |questions|
    ensures forall k :: 0 <= k < |questions| ==> (r[k] <==> k in answers && |answers[k]| > 0)
  {
    seq(|questions|, k requires 0 <= k < |questions| => HasAnswer(answers, k))
  }

  method GetExamStats(questions: seq<Question>, answers: Answers) returns (stats: ExamStats)
    ensures stats.progress.total == |questions|
    ensures stats.progress.answered == |answers.Keys|
    ensures stats.progress.remaining == |questions| - |answers.Keys|
    ensures stats.progress.percentage == Percentage(|answers.Keys|, |questions|)
    ensures IsTally(stats.categoryStats, Categories(questions), AnsweredFlags(questions, answers))
    ensures IsTally(stats.difficultyStats, Difficulties(questions), AnsweredFlags(questions, answers))
  {
    var totalQuestions := |questions|;
    var answeredQuestions := |answers.Keys|;
    var remainingQuestions := totalQuestions - answeredQuestions;
    var flags := AnsweredFlags(questions, answers);
    var categoryStats := TallyBy(Categories(questions), flags);
    var difficultyStats := TallyBy(Difficulties(questions), flags);
    stats := ExamStats(
      Progress(totalQuestions, answeredQuestions, remainingQuestions,
               Percentage(answeredQuestions, totalQuestions)),
      categoryStats, difficultyStats);
  }

  // ---------------------------------------------------------------------
  // formatTimeRemaining, shouldAutoSubmit

  datatype ClockTime = ClockTime(hours: int, minutes: int, secs: int)

  /** `Math.floor(s / 3600)`, `Math.floor((s % 3600) / 60)`, `s % 60`. */
  function ClockFields(seconds: int): (t: ClockTime)
    ensures seconds >= 0 ==> t.hours * 3600 + t.minutes * 60 + t.secs == seconds
    ensures seconds >= 0 ==> 0 <= t.hours && 0 <= t.minutes < 60 && 0 <= t.secs < 60
  {
    ClockTime(seconds / 3600, Rem(seconds, 3600) / 60, Rem(seconds, 60))
  }

  /** `String(v).padStart(2, '0')` */
  function Pad2(v: int): string
  {
    PadStart(IntToString(v), 2, '0')
  }

  /** Every field is at least two characters, so the text is never shorter than `HH:MM:SS`. */
  function FormatTimeRemaining(seconds: int): (r: string)
    ensures |r| >= 8
  {
    var t := ClockFields(seconds);
    JoinThree(Pad2(t.hours), Pad2(t.minutes), Pad2(t.secs), ':');
    Join([Pad2(t.hours), Pad2(t.minutes), Pad2(t.secs)], ':')
  }

  /** Reads an `H:M:S` text of decimal fields back into seconds. */
  function ParseClock(text: string): Option<nat>
  {
    var parts := Split(text, ':');
    if |parts| == 3 && AllDigits(parts[0]) && AllDigits(parts[1]) && AllDigits(parts[2])
    then Some(ParseDigits(parts[0]) * 3600 + ParseDigits(parts[1]) * 60 + ParseDigits(parts[2]))
    else None
  }

  lemma Pad2Digits(v: nat)
    ensures AllDigits(Pad2(v)) && ':' !in Pad2(v)
    ensures ParseDigits(Pad2(v)) == v
    ensures v < 100 ==> |Pad2(v)| == 2
  {
    PaddedNatRoundTrip(v, 2);
    if v < 100 {
      if v >= 10 {
        assert NatToString(v) == NatToString(v / 10) + [DigitChar(v % 10)];
      }
    }
  }

  /** Three digit strings joined with `:` read back as hours, minutes and seconds. */
  lemma ParseClockOfJoin(hh: string, mm: string, ss: string, h: nat, m: nat, sec: nat)
    requires AllDigits(hh) && AllDigits(mm) && AllDigits(ss)
    requires ':' !in hh && ':' !in mm && ':' !in ss
    requires ParseDigits(hh) == h && ParseDigits(mm) == m && ParseDigits(ss) == sec
    ensures ParseClock(Join([hh, mm, ss], ':')) == Some(h * 3600 + m * 60 + sec)
  {
    var parts := [hh, mm, ss];
    assert forall i :: 0 <= i < |parts| ==> ':' !in parts[i];
    SplitJoin(parts, ':');
    var split := Split(Join(parts, ':'), ':');
    assert split == parts;
    assert |split| == 3 && split[0] == hh && split[1] == mm && split[2] == ss;
  }

  /** Three padded fields joined with `:` read back as their weighted sum. */
  lemma ParseClockOfFields(h: nat, m: nat, sec: nat)
    ensures ParseClock(Join([Pad2(h), Pad2(m), Pad2(sec)], ':')) == Some(h * 3600 + m * 60 + sec)
  {
    Pad2Digits(h);
    Pad2Digits(m);
    Pad2Digits(sec);
    ParseClockOfJoin(Pad2(h), Pad2(m), Pad2(sec), h, m, sec);
  }

  /** The clock text of a non-negative time reads back as that time. */
  lemma FormatTimeRoundTrip(seconds: nat)
    ensures ParseClock(FormatTimeRemaining(seconds)) == Some(seconds)
  {
    var t := ClockFields(seconds);
    var h, m, sec := t.hours, t.minutes, t.secs;
    assert FormatTimeRemaining(seconds) == Join([Pad2(h), Pad2(m), Pad2(sec)], ':');
    ParseClockOfFields(h, m, sec);
    assert h * 3600 + m * 60 + sec == seconds;
  }

  /** Below 100 hours the clock text is exactly `HH:MM:SS`. */
  lemma FormatTimeLength(seconds: nat)
    requires seconds < 360000
    ensures |FormatTimeRemaining(seconds)| == 8
  {
    var t := ClockFields(seconds);
    assert t.hours < 100;
    Pad2Digits(t.hours);
    Pad2Digits(t.minutes);
    Pad2Digits(t.secs);
    JoinThree(Pad2(t.hours), Pad2(t.minutes), Pad2(t.secs), ':');
  }

  function ShouldAutoSubmit(timeRemaining: int, answers: Answers, totalQuestions: int): (r: bool)
    ensures r <==> timeRemaining <= 0 || |answers.Keys| == totalQuestions
  {
    if timeRemaining <= 0 then true
    else if |answers.Keys| == totalQuestions then true
    else false
  }

  /** Once every position `0 .. n-1` holds an entry, the exam auto-submits. */
  lemma AutoSubmitWhenEveryQuestionAnswered(timeRemaining: int, answers: Answers, n: nat)
    requires answers.Keys == IndexRange(n)
    ensures ShouldAutoSubmit(timeRemaining, answers, n)
  {
    IndexRangeCardinality(n);
  }

  /** With an answer key outside `0 .. n-1`, the count can match while a question is still open. */
  lemma AutoSubmitCountsKeysNotPositions()
    ensures ShouldAutoSubmit(60, map[1 := [0]], 1) && 0 !in map[1 := [0]]
  {
  }
}
