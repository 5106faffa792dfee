/** The night bonus of `LogsCog.generate_log_file` (cogs/logs_cog.py): an
    event of `points` minutes that ends at `end` overlaps the night, 03:00 to
    07:00 on the local day of its end; the overlap, rounded to whole minutes,
    earns extra points at multiplier 2.0 for users on the blum list and 1.5
    for everyone else.

    The code computes with floats and Python's `round`, which rounds halves
    to even. Instants here are whole milliseconds, so the overlap in minutes
    is a multiple of 1/60000 and the bonus a multiple of 1/2; the floats hold
    these values exactly at every tie and far enough from one elsewhere, so
    integer round-half-even gives the same numbers. */
module NightBonus {
  import opened Calendar

  /** `round(n / d)`: the integer nearest to n/d, the even one at a tie. */
  function RoundHalfEven(n: int, d: int): (r: int)
    requires d > 0
    ensures -d <= 2 * (n - r * d) <= d
    ensures (2 * (n - r * d) == d || 2 * (n - r * d) == -d) ==> r % 2 == 0
  {
    var q := n / d;
    var m := n % d;
    assert n == q * d + m && 0 <= m < d;
    if 2 * m < d then q
    else if 2 * m > d then q + 1
    else if q % 2 == 0 then q
    else
      assert n - (q + 1) * d == m - d;
      q + 1
  }

  lemma Scaled(x: int, d: int)
    requires d > 0
    ensures x >= 1 ==> x * d >= d
    ensures x >= 2 ==> x * d >= 2 * d
    ensures x <= -1 ==> x * d <= -d
  {
    if x >= 1 {
      assert x * d - d == (x - 1) * d;
      if x >= 2 {
        assert x * d - 2 * d == (x - 2) * d;
      }
    } else if x <= -1 {
      assert x * d + d == (x + 1) * d;
    }
  }

  /** Rounding keeps order. */
  lemma RoundMonotone(n1: int, n2: int, d: int)
    requires d > 0 && n1 <= n2
    ensures RoundHalfEven(n1, d) <= RoundHalfEven(n2, d)
  {
    var r1, r2 := RoundHalfEven(n1, d), RoundHalfEven(n2, d);
    if r1 > r2 {
      var a, b := r1 * d, r2 * d;
      assert a - b == (r1 - r2) * d;
      Scaled(r1 - r2, d);
      // 2a - d <= 2 n1 <= 2 n2 <= 2b + d, so a - b <= d: the two differ by
      // one, and both n1 and n2 sit on ties, where both would be even.
      assert false;
    }
  }

  /** Rounding an exact multiple gives the quotient. */
  lemma RoundExact(k: int, d: int)
    requires d > 0
    ensures RoundHalfEven(k * d, d) == k
  {
    var r := RoundHalfEven(k * d, d);
    assert k * d - r * d == (k - r) * d;
    Scaled(k - r, d);
  }

  const NightStart: int := 10800000  // 03:00 as milliseconds into the day
  const NightEnd: int := 25200000    // 07:00

  /** Local midnight of the day an instant falls on. */
  function DayStart(t: int): (d: int)
    ensures d <= t < d + MsPerDay
    ensures IsMidnight(d)
  {
    WholeDays(t / MsPerDay);
    t - t % MsPerDay
  }

  /** Milliseconds of [end − points minutes, end] that fall within 03:00 to
      07:00 of the end's local day; 0 when that stretch is empty. */
  function NightOverlap(end: int, points: int): (ms: int)
    ensures 0 <= ms <= NightEnd - NightStart
    ensures ms <= (if points > 0 then points * MsPerMinute else 0)
  {
    var start := end - points * MsPerMinute;
    var nightStart := DayStart(end) + NightStart;
    var nightEnd := DayStart(end) + NightEnd;
    var from := if start > nightStart then start else nightStart;
    var to := if end < nightEnd then end else nightEnd;
    if to > from then to - from else 0
  }

  /** `bonus_minutes`: the overlap rounded to whole minutes. */
  function NightMinutes(end: int, points: int): (minutes: int)
    ensures 0 <= minutes <= 240
    ensures minutes <= (if points > 0 then points else 0)
  {
    var ms := NightOverlap(end, points);
    var p := if points > 0 then points else 0;
    RoundMonotone(0, ms, MsPerMinute);
    RoundExact(0, MsPerMinute);
    RoundMonotone(ms, 240 * MsPerMinute, MsPerMinute);
    RoundExact(240, MsPerMinute);
    RoundMonotone(ms, p * MsPerMinute, MsPerMinute);
    RoundExact(p, MsPerMinute);
    RoundHalfEven(ms, MsPerMinute)
  }

  /** `round(bonus_minutes * (multiplier - 1.0))` when there are minutes,
      otherwise nothing: the minutes themselves at 2.0, half of them rounded
      half to even at 1.5. */
  function Bonus(minutes: int, boosted: bool): int {
    if minutes <= 0 then 0
    else if boosted then minutes
    else RoundHalfEven(minutes, 2)
  }

  /** The bonus never exceeds the night minutes, and the blum multiplier
      never gives less than the standard one. */
  lemma BonusBounds(minutes: int)
    ensures 0 <= Bonus(minutes, false) <= Bonus(minutes, true)
    ensures Bonus(minutes, true) == (if minutes > 0 then minutes else 0)
    ensures minutes > 0 ==> -1 <= 2 * Bonus(minutes, false) - minutes <= 1
  {
    if minutes > 0 {
      RoundMonotone(0, minutes, 2);
      RoundExact(0, 2);
      RoundMonotone(minutes, 2 * minutes, 2);
      RoundExact(minutes, 2);
    }
  }

  /** Ties go to the even neighbour: 1 minute at 1.5 earns nothing, 3 earn
      2, 5 earn 2. */
  lemma BonusTies()
    ensures Bonus(1, false) == 0 && Bonus(3, false) == 2 && Bonus(5, false) == 2
    ensures Bonus(1, true) == 1
  {
  }

  /** A longer event ending at the same instant covers at least as much of
      the night. */
  lemma {:induction false} NightMinutesMonotone(end: int, p1: int, p2: int)
    requires p1 <= p2
    ensures NightMinutes(end, p1) <= NightMinutes(end, p2)
  {
    RoundMonotone(NightOverlap(end, p1), NightOverlap(end, p2), MsPerMinute);
  }

  /** What a clock reading on a local day comes to. */
  lemma TimeOfDay(day: int, ms: int)
    requires 0 <= ms < MsPerDay
    ensures DayStart(day * MsPerDay + ms) == day * MsPerDay
  {
  }

  /** Worked cases on any day: an event of 120 minutes ending at 04:00 has
      60 night minutes (30 extra at 1.5, 60 at 2.0); one of 600 minutes
      ending at 08:00 has all 240; one ending at 12:00 after 60 minutes has
      none; one of 90 minutes ending at 03:30 has 30. */
  lemma NightExamples(day: int)
    ensures NightMinutes(day * MsPerDay + 4 * MsPerHour, 120) == 60
    ensures Bonus(60, false) == 30 && Bonus(60, true) == 60
    ensures NightMinutes(day * MsPerDay + 8 * MsPerHour, 600) == 240
    ensures NightMinutes(day * MsPerDay + 12 * MsPerHour, 60) == 0
    ensures NightMinutes(day * MsPerDay + 3 * MsPerHour + 30 * MsPerMinute, 90) == 30
  {
    TimeOfDay(day, 4 * MsPerHour);
    assert NightOverlap(day * MsPerDay + 4 * MsPerHour, 120) == 60 * MsPerMinute;
    RoundExact(60, MsPerMinute);
    RoundExact(30, 2);
    TimeOfDay(day, 8 * MsPerHour);
    assert NightOverlap(day * MsPerDay + 8 * MsPerHour, 600) == 240 * MsPerMinute;
    RoundExact(240, MsPerMinute);
    TimeOfDay(day, 12 * MsPerHour);
    assert NightOverlap(day * MsPerDay + 12 * MsPerHour, 60) == 0;
    RoundExact(0, MsPerMinute);
    TimeOfDay(day, 3 * MsPerHour + 30 * MsPerMinute);
    assert NightOverlap(day * MsPerDay + 3 * MsPerHour + 30 * MsPerMinute, 90) == 30 * MsPerMinute;
    RoundExact(30, MsPerMinute);
  }
}
