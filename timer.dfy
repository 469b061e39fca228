// The countdown display: the clock text, its colour bands and the
// low-time warning.

module Timer {

  import opened Js
  import opened ExamService

  /**
   * `formatTime(seconds)`: the three padded fields in a template string,
   * which is the exam service's clock text.
   */
  function FormatTime(seconds: int): (r: string)
    ensures r == FormatTimeRemaining(seconds)
  {
    var t := ClockFields(seconds);
    JoinThree(Pad2(t.hours), Pad2(t.minutes), Pad2(t.secs), ':');
    Pad2(t.hours) + ":" + Pad2(t.minutes) + ":" + Pad2(t.secs)
  }

  /** The display's clock text of any seconds ≥ 0 reads back as those seconds. */
  lemma FormatTimeAgreesWithService(seconds: int)
    ensures seconds >= 0 ==> ParseClock(FormatTime(seconds)) == Some(seconds)
  {
    if seconds >= 0 {
      FormatTimeRoundTrip(seconds);
    }
  }

  datatype TimeColor = Red | Orange | Gray

  /** `getTimeColor()`: red for the last five minutes, orange up to fifteen. */
  function TimeColorOf(timeRemaining: int): (c: TimeColor)
    ensures c == Red <==> timeRemaining <= 300
    ensures c == Orange <==> 300 < timeRemaining <= 900
    ensures c == Gray <==> timeRemaining > 900
  {
    if timeRemaining <= 300 then Red
    else if timeRemaining <= 900 then Orange
    else Gray
  }

  /** The "Sắp hết giờ!" line is rendered. */
  predicate ShowsWarning(timeRemaining: int)
  {
    timeRemaining <= 300
  }

  function Severity(c: TimeColor): nat
  {
    match c
    case Gray => 0
    case Orange => 1
    case Red => 2
  }

  /**
   * The warning shows exactly while the clock is red, and the colour only
   * grows more severe as time runs down.
   */
  lemma WarningWhileRed(t: int, u: int)
    ensures ShowsWarning(t) <==> TimeColorOf(t) == Red
    ensures u <= t ==> Severity(TimeColorOf(u)) >= Severity(TimeColorOf(t))
  {
  }
}
