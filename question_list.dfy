// The question list: the status of each numbered button and the fixed grid
// of 20 rows by 5 columns they are laid out in.

module QuestionList {

  import opened Js
  import opened ExamTypes

  datatype Status = Current | Answered | Unanswered

  /** `getQuestionStatus(index)` */
  function QuestionStatus(currentIndex: int, answers: Answers, index: nat): (s: Status)
    ensures s == Current <==> index == currentIndex
    ensures s == Answered <==> index != currentIndex && HasAnswer(answers, index)
    ensures s == Unanswered <==> index != currentIndex && !HasAnswer(answers, index)
  {
    if currentIndex == index then Current
    else if index in answers && |answers[index]| > 0 then Answered
    else Unanswered
  }

  const Rows: nat := 20
  const Columns: nat := 5

  /** The cell at row `r`, column `c`: its position, when there is such a question. */
  function Cell(count: nat, r: nat, c: nat): Option<nat>
  {
    var questionIndex := r * Columns + c;
    if questionIndex < count then Some(questionIndex) else None
  }

  /** The `rows` array the list renders, for `count` questions. */
  function Grid(count: nat): (rows: seq<seq<Option<nat>>>)
    ensures |rows| == Rows
    ensures forall r :: 0 <= r < Rows ==> |rows[r]| == Columns
    ensures forall r, c :: 0 <= r < Rows && 0 <= c < Columns ==> rows[r][c] == Cell(count, r, c)
  {
    seq(Rows, r requires 0 <= r < Rows =>
      seq(Columns, c requires 0 <= c < Columns => Cell(count, r, c)))
  }

  /**
   * Every position below both the question count and 100 has a button, in
   * row `q / 5`, column `q % 5`, and in no other cell.
   */
  lemma GridPlacesEachPositionOnce(count: nat, q: nat)
    requires q < count && q < Rows * Columns
    ensures Grid(count)[q / Columns][q % Columns] == Some(q)
    ensures forall r, c :: 0 <= r < Rows && 0 <= c < Columns && Grid(count)[r][c] == Some(q) ==>
              r == q / Columns && c == q % Columns
  {
    forall r, c | 0 <= r < Rows && 0 <= c < Columns && Grid(count)[r][c] == Some(q)
      ensures r == q / Columns && c == q % Columns
    {
      assert q == r * 5 + c;
    }
  }

  /**
   * A button only ever names a real question, and never one past the
   * hundredth: positions from 100 on are unreachable from the list.
   */
  lemma GridOnlyNamesListedPositions(count: nat, r: nat, c: nat)
    requires r < Rows && c < Columns
    ensures Grid(count)[r][c].Some? ==> Grid(count)[r][c].value < count
    ensures Grid(count)[r][c].Some? ==> Grid(count)[r][c].value < Rows * Columns
    ensures Grid(count)[r][c].None? <==> r * Columns + c >= count
  {
  }

  /** `onClick` on a button: the position that becomes current. */
  function Clicked(count: nat, r: nat, c: nat): (index: Option<nat>)
    requires r < Rows && c < Columns
    ensures index == Grid(count)[r][c]
    ensures index.Some? ==> index.value < count && index.value / Columns == r && index.value % Columns == c
  {
    Cell(count, r, c)
  }
}
