/** `seconds_to_hours_mins` (utilities/utilities.py): whole hours and the
    whole minutes left over, for a natural number of seconds. */
module Utilities {

  const SecondsPerMinute: nat := 60
  const MinutesPerHour: nat := 60
  const SecondsPerHour: nat := SecondsPerMinute * MinutesPerHour

  /** The pair `(hours, mins)`. */
  function SecondsToHoursMins(seconds: nat): (r: (nat, nat))
    ensures r.1 < MinutesPerHour
    ensures r.0 * SecondsPerHour + r.1 * SecondsPerMinute <= seconds
    ensures seconds < r.0 * SecondsPerHour + r.1 * SecondsPerMinute + SecondsPerMinute
  {
    var mins := (seconds / SecondsPerMinute) % MinutesPerHour;
    var hours := seconds / SecondsPerMinute / MinutesPerHour;
    (hours, mins)
  }

  /** The hours are the whole hours in the seconds. */
  lemma {:induction false} HoursAreWholeHours(seconds: nat)
    ensures SecondsToHoursMins(seconds).0 == seconds / SecondsPerHour
  {
    var q := seconds / SecondsPerMinute;
    var h := q / MinutesPerHour;
    assert h * MinutesPerHour <= q < h * MinutesPerHour + MinutesPerHour;
    assert q * SecondsPerMinute <= seconds < q * SecondsPerMinute + SecondsPerMinute;
    assert h * SecondsPerHour <= seconds < h * SecondsPerHour + SecondsPerHour;
  }

  /** The bounds of `SecondsToHoursMins` single out one pair: any hours and
      minutes meeting them are the ones computed. */
  lemma {:induction false} HoursMinsUnique(seconds: nat, h: nat, m: nat)
    requires m < MinutesPerHour
    requires h * SecondsPerHour + m * SecondsPerMinute <= seconds
    requires seconds < h * SecondsPerHour + m * SecondsPerMinute + SecondsPerMinute
    ensures SecondsToHoursMins(seconds) == (h, m)
  {
    var r := SecondsToHoursMins(seconds);
    var a := h * MinutesPerHour + m;
    var b := r.0 * MinutesPerHour + r.1;
    assert a * SecondsPerMinute <= seconds < a * SecondsPerMinute + SecondsPerMinute;
    assert b * SecondsPerMinute <= seconds < b * SecondsPerMinute + SecondsPerMinute;
    ScaledGap(a, b, SecondsPerMinute);
    ScaledGap(b, a, SecondsPerMinute);
    assert a == b;
    ScaledGap(h, r.0, MinutesPerHour);
    ScaledGap(r.0, h, MinutesPerHour);
  }

  /** Distinct multiples of `c` lie at least `c` apart. */
  lemma ScaledGap(x: nat, y: nat, c: nat)
    ensures x < y ==> (x + 1) * c <= y * c
  {
    if x < y {
      assert y * c == (x + 1) * c + (y - x - 1) * c;
    }
  }

  /** More seconds never give fewer hours. */
  lemma HoursMonotone(s: nat, t: nat)
    requires s <= t
    ensures SecondsToHoursMins(s).0 <= SecondsToHoursMins(t).0
  {
    HoursAreWholeHours(s);
    HoursAreWholeHours(t);
    ScaledGap(t / SecondsPerHour, s / SecondsPerHour, SecondsPerHour);
  }

}
