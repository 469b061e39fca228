// The result screen: pass / fail and the colour of the score.

module ResultScreen {

  import opened Js

  /** `score >= 60` on a JavaScript number. */
  predicate IsPassing(score: Num)
  {
    AtLeast(score, 60.0)
  }

  datatype ScoreColor = Green | Blue | Red

  /** `getScoreColor()`: green from 80, blue from 60, red below (and for NaN). */
  function ScoreColorOf(score: Num): (c: ScoreColor)
    ensures c == Green <==> AtLeast(score, 80.0)
    ensures c == Blue <==> !AtLeast(score, 80.0) && AtLeast(score, 60.0)
    ensures c == Red <==> !AtLeast(score, 60.0)
  {
    if AtLeast(score, 80.0) then Green
    else if AtLeast(score, 60.0) then Blue
    else Red
  }

  /** The status line. */
  function StatusText(score: Num): string
  {
    if IsPassing(score) then "Đạt" else "Không đạt"
  }

  /** A score passes exactly when it is not shown in red; the status line says which. */
  lemma PassingIffNotRed(score: Num)
    ensures IsPassing(score) <==> ScoreColorOf(score) != Red
    ensures StatusText(score) == "Đạt" <==> IsPassing(score)
  {
    assert |"Đạt"| != |"Không đạt"|;
  }

  /**
   * The scores a division can produce outside the percentages: 0/0 fails
   * in red, k/0 passes in green.
   */
  lemma DivisionEdgeScores(k: nat)
    requires k > 0
    ensures Percentage(0, 0) == NaN && !IsPassing(NaN) && ScoreColorOf(NaN) == Red
    ensures Percentage(k, 0) == Infinity && IsPassing(Infinity) && ScoreColorOf(Infinity) == Green
  {
  }

  /** A finite score passes exactly from 60 up, whatever the other bands. */
  lemma FinitePassMark(v: real)
    ensures IsPassing(Finite(v)) <==> v >= 60.0
    ensures ScoreColorOf(Finite(v)) == Blue <==> 60.0 <= v < 80.0
  {
  }
}
