/** The fixed duration table and the deadline arithmetic of adding and re-timing a task. */
module Deadlines {
  import opened Records

  const MicrosPerDay: int := 86_400_000_000

  /** The labels of the duration table, in the table's order. */
  const Labels: seq<string> := ["1 month", "3 months", "6 months", "1 year", "5 years"]

  /** The number of days a duration label stands for; None where the dictionary
      lookup raises KeyError. */
  function DurationDays(duration: string): (r: Option<nat>)
    ensures r.Some? <==> duration in Labels
    ensures r.Some? ==> 30 <= r.value <= 1825
  {
    if duration == "1 month" then Some(30)
    else if duration == "3 months" then Some(90)
    else if duration == "6 months" then Some(180)
    else if duration == "1 year" then Some(365)
    else if duration == "5 years" then Some(1825)
    else None
  }

  /** The inverse of the table: the label whose day count is `days`. */
  function LabelOfDays(days: int): (r: Option<string>)
    ensures r.Some? ==> r.value in Labels
  {
    if days == 30 then Some("1 month")
    else if days == 90 then Some("3 months")
    else if days == 180 then Some("6 months")
    else if days == 365 then Some("1 year")
    else if days == 1825 then Some("5 years")
    else None
  }

  /** The label whose span is exactly `span` microseconds, if any. */
  function LabelOfSpan(span: int): Option<string> {
    if span % MicrosPerDay == 0 then LabelOfDays(span / MicrosPerDay) else None
  }

  /** The deadline of a task timed with `duration` at `now`: `now` plus the label's day count. */
  function ComputeDeadline(duration: string, now: int): (r: Result<int>)
    ensures r.Err? <==> duration !in Labels
    ensures r.Err? ==> r.error == KeyError(duration)
    ensures r.Ok? ==> now + 30 * MicrosPerDay <= r.value <= now + 1825 * MicrosPerDay
    ensures r.Ok? ==> (r.value - now) % MicrosPerDay == 0
  {
    match DurationDays(duration)
    case None => Err(KeyError(duration))
    case Some(days) => Ok(now + days * MicrosPerDay)
  }

  /** The day table read backwards gives back the label: no two labels share a day count. */
  lemma DaysDetermineLabel(duration: string, days: int)
    ensures DurationDays(duration) == Some(days) <==> LabelOfDays(days) == Some(duration)
  {
  }

  /** The span between a deadline and its anchor determines the label it was computed from,
      whatever the anchor. */
  lemma DeadlineSpanDeterminesLabel(duration: string, now: int)
    requires duration in Labels
    ensures ComputeDeadline(duration, now).Ok?
    ensures LabelOfSpan(ComputeDeadline(duration, now).value - now) == Some(duration)
  {
    var days := DurationDays(duration).value;
    assert ComputeDeadline(duration, now).value - now == days * MicrosPerDay;
    assert (days * MicrosPerDay) / MicrosPerDay == days;
    DaysDetermineLabel(duration, days);
  }

  /** A longer label in the table gives a later deadline from the same anchor. */
  lemma DeadlinesFollowTableOrder(i: nat, j: nat, now: int)
    requires i < j < |Labels|
    ensures ComputeDeadline(Labels[i], now).value < ComputeDeadline(Labels[j], now).value
  {
  }
}
