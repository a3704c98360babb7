/**
  The arithmetic of `initCountdown`: the whole hours and the minutes left
  over in the milliseconds before peak impact. The clock read, the date
  parsing and the one-minute `setInterval` are outside the model; `diff` is
  the millisecond difference they produce.
*/
module Countdown {
  import opened Wrappers

  const MsPerHour := 1000 * 60 * 60
  const MsPerMinute := 1000 * 60

  datatype Remaining = Remaining(hours: nat, minutes: nat)

  /**
    `if (diff < 0) return;` then `Math.floor(diff / MsPerHour)` and
    `Math.floor((diff % MsPerHour) / MsPerMinute)`; on a non-negative `diff`
    JavaScript's truncating `%` and flooring agree with Dafny's `/` and `%`.
  */
  function Countdown(diff: int): (r: Option<Remaining>)
    ensures r.None? <==> diff < 0
    ensures r.Some? ==> r.value.minutes <= 59
    ensures r.Some? ==>
      var h, m := r.value.hours, r.value.minutes;
      h * MsPerHour + m * MsPerMinute <= diff < h * MsPerHour + (m + 1) * MsPerMinute
  {
    if diff < 0 then None
    else Some(Remaining(diff / MsPerHour, (diff % MsPerHour) / MsPerMinute))
  }

  /** At most one hours-and-minutes reading fits a difference: the one the page shows. */
  lemma CountdownUnique(diff: int, h: nat, m: nat)
    requires m <= 59
    requires h * MsPerHour + m * MsPerMinute <= diff < h * MsPerHour + (m + 1) * MsPerMinute
    ensures Countdown(diff) == Some(Remaining(h, m))
  {
    assert diff / MsPerHour == h;
    var rest := diff % MsPerHour;
    assert rest == diff - h * MsPerHour;
    assert rest / MsPerMinute == m;
  }

  /**
    One tick of the one-minute interval: the difference falls by a minute and
    the reading drops by one minute, borrowing an hour at 0. Once less than a
    minute is left the difference turns negative and nothing more is shown.
  */
  lemma OneMinuteLater(diff: int)
    requires diff >= 0
    ensures var now, later := Countdown(diff).value, Countdown(diff - MsPerMinute);
      if diff < MsPerMinute then later == None
      else if now.minutes > 0 then later == Some(Remaining(now.hours, now.minutes - 1))
      else now.hours > 0 && later == Some(Remaining(now.hours - 1, 59))
  {
    var now := Countdown(diff).value;
    if diff >= MsPerMinute {
      if now.minutes > 0 {
        CountdownUnique(diff - MsPerMinute, now.hours, now.minutes - 1);
      } else {
        CountdownUnique(diff - MsPerMinute, now.hours - 1, 59);
      }
    }
  }
}
