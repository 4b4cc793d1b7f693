/** `getTimeRemaining`: the countdown label shown for each subject. */
module TimeRemaining {
  import opened Wrappers
  import opened Clock

  /** The label's `type`. */
  datatype Kind = Overdue | Hours | Days

  /** The object `{ type, days, hours }` the source returns. */
  datatype Remaining = Remaining(kind: Kind, days: int, hours: int)

  /**
   * The countdown for a subject due at `dueDate`, seen at `now`; `None` for
   * a subject without a deadline.
   */
  function GetTimeRemaining(dueDate: int, isNoLimit: bool, now: int): (r: Option<Remaining>)
    ensures r.None? <==> isNoLimit
    ensures r.Some? && dueDate - now <= 0 ==>
      var past := now - dueDate;
      r.value.kind == Overdue && r.value.hours == 0 && r.value.days >= 0 &&
      (r.value.days - 1) * Day < past <= r.value.days * Day
    ensures r.Some? && 0 < dueDate - now < Day ==>
      var diff := dueDate - now;
      r.value.kind == Hours && r.value.days == 0 && 1 <= r.value.hours <= 24 &&
      (r.value.hours - 1) * Hour < diff <= r.value.hours * Hour
    ensures r.Some? && dueDate - now >= Day ==>
      var diff := dueDate - now;
      r.value.kind == Days && r.value.hours == 0 && r.value.days >= 1 &&
      (r.value.days - 1) * Day < diff <= r.value.days * Day
  {
    if isNoLimit then None
    else
      var diff := dueDate - now;
      if diff <= 0 then
        Some(Remaining(Overdue, CeilDiv(-diff, Day), 0))
      else if diff < Day then
        Some(Remaining(Hours, 0, CeilDiv(diff, Hour)))
      else
        Some(Remaining(Days, CeilDiv(diff, Day), 0))
  }

  /**
   * The same classifier read literally, with exact real division standing
   * for `/` and the real ceiling for `Math.ceil`.
   */
  ghost function ExactTimeRemaining(dueDate: int, isNoLimit: bool, now: int): Option<Remaining>
  {
    if isNoLimit then None
    else
      var diffTime := (dueDate - now) as real;
      if diffTime <= 0.0 then
        var absDiff := if diffTime < 0.0 then -diffTime else diffTime;
        Some(Remaining(Overdue, Ceil(absDiff / Day as real), 0))
      else
        var diffDays := diffTime / Day as real;
        if diffDays < 1.0 then Some(Remaining(Hours, 0, Ceil(diffTime / Hour as real)))
        else Some(Remaining(Days, Ceil(diffDays), 0))
  }

  /** The integer classifier computes exactly what the source's arithmetic means. */
  lemma GetTimeRemainingIsExact(dueDate: int, isNoLimit: bool, now: int)
    ensures GetTimeRemaining(dueDate, isNoLimit, now) == ExactTimeRemaining(dueDate, isNoLimit, now)
  {
    var diff := dueDate - now;
    if !isNoLimit {
      if diff <= 0 {
        assert (-diff) as real == -(diff as real);
        CeilDivIsCeiling(-diff, Day);
      } else if diff < Day {
        CeilDivIsCeiling(diff, Hour);
      } else {
        CeilDivIsCeiling(diff, Day);
      }
    }
  }

  /** The worked cases: half an hour, 25 hours ahead and 10 hours late. */
  lemma Examples(now: int)
    ensures GetTimeRemaining(now + 30 * 60 * 1000, false, now) == Some(Remaining(Hours, 0, 1))
    ensures GetTimeRemaining(now + 25 * Hour, false, now) == Some(Remaining(Days, 2, 0))
    ensures GetTimeRemaining(now - 10 * Hour, false, now) == Some(Remaining(Overdue, 1, 0))
  {
  }
}
