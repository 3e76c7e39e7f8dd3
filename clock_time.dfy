/**
 * The clock's internal 24-hour time and the tick that advances it by one
 * minute, with the carry from minutes into hours.
 */
module ClockTime {

  /** An internal time: hour 0..23 and minute 0..59 when valid. */
  datatype Time = Time(hour: int, minute: int)

  const HoursPerDay: nat := 24
  const MinutesPerHour: nat := 60
  const MinutesPerDay: nat := 1440

  predicate ValidTime(t: Time) {
    0 <= t.hour < HoursPerDay && 0 <= t.minute < MinutesPerHour
  }

  /** Minutes since midnight: the independent reference for what a tick does. */
  function MinuteOfDay(t: Time): (k: int)
    requires ValidTime(t)
    ensures 0 <= k < MinutesPerDay
  {
    t.hour * MinutesPerHour + t.minute
  }

  /**
   * One tick: the minute counter wraps at 60, and the hour counter, which
   * wraps at 24, advances only when the minute has just rolled over to zero.
   */
  function Tick(t: Time): (r: Time)
    requires ValidTime(t)
    ensures ValidTime(r)
  {
    var minute := (t.minute + 1) % MinutesPerHour;
    var hour := if minute == 0 then (t.hour + 1) % HoursPerDay else t.hour;
    Time(hour, minute)
  }

  /** The time after `n` ticks. */
  function Ticks(t: Time, n: nat): (r: Time)
    requires ValidTime(t)
    ensures ValidTime(r)
  {
    if n == 0 then t else Tick(Ticks(t, n - 1))
  }

  /** A valid time is determined by its minute of the day. */
  lemma MinuteOfDayInjective(a: Time, b: Time)
    requires ValidTime(a) && ValidTime(b)
    ensures MinuteOfDay(a) == MinuteOfDay(b) <==> a == b
  {
    if a.hour < b.hour {
      assert MinuteOfDay(a) < (a.hour + 1) * MinutesPerHour <= MinuteOfDay(b);
    } else if b.hour < a.hour {
      assert MinuteOfDay(b) < (b.hour + 1) * MinutesPerHour <= MinuteOfDay(a);
    }
  }

  /** A tick is the successor on the 1440-minute circle of the day. */
  lemma TickIsSuccessor(t: Time)
    requires ValidTime(t)
    ensures MinuteOfDay(Tick(t)) == (MinuteOfDay(t) + 1) % MinutesPerDay
  {
  }

  /** After `n` ticks the clock is `n` minutes later, modulo a day. */
  lemma {:induction false} TicksAdvance(t: Time, n: nat)
    requires ValidTime(t)
    ensures MinuteOfDay(Ticks(t, n)) == (MinuteOfDay(t) + n) % MinutesPerDay
  {
    if n > 0 {
      TicksAdvance(t, n - 1);
      TickIsSuccessor(Ticks(t, n - 1));
      ModSuccessor(MinuteOfDay(t) + n - 1);
    }
  }

  /** The clock comes back to where it started exactly after a whole number of days. */
  lemma TicksReturn(t: Time, n: nat)
    requires ValidTime(t)
    ensures Ticks(t, n) == t <==> n % MinutesPerDay == 0
  {
    TicksAdvance(t, n);
    MinuteOfDayInjective(Ticks(t, n), t);
    var k := MinuteOfDay(t);
    var q, r := n / MinutesPerDay, n % MinutesPerDay;
    assert k + n == (k + r) + q * MinutesPerDay;
    ModMultiple(k + r, q);
    if r != 0 {
      if k + r < MinutesPerDay {
        assert (k + r) % MinutesPerDay == k + r;
      } else {
        assert (k + r) % MinutesPerDay == k + r - MinutesPerDay;
      }
    }
  }

  /** 1440 ticks, one full day, bring the clock back to the same time. */
  lemma FullDay(t: Time)
    requires ValidTime(t)
    ensures Ticks(t, MinutesPerDay) == t
  {
    TicksReturn(t, MinutesPerDay);
  }

  /** `y` written as `q` whole days plus a remainder `r` has remainder `r`. */
  lemma ModOf(y: int, q: int, r: int)
    requires y == q * MinutesPerDay + r && 0 <= r < MinutesPerDay
    ensures y % MinutesPerDay == r
  {
    var q', r' := y / MinutesPerDay, y % MinutesPerDay;
    assert (q - q') * MinutesPerDay == r' - r;
  }

  lemma ModSuccessor(x: nat)
    ensures ((x % MinutesPerDay) + 1) % MinutesPerDay == (x + 1) % MinutesPerDay
  {
    var q, r := x / MinutesPerDay, x % MinutesPerDay;
    if r + 1 < MinutesPerDay {
      ModOf(x + 1, q, r + 1);
      ModOf(r + 1, 0, r + 1);
    } else {
      ModOf(x + 1, q + 1, 0);
      ModOf(r + 1, 1, 0);
    }
  }

  lemma ModMultiple(x: nat, q: nat)
    ensures (x + q * MinutesPerDay) % MinutesPerDay == x % MinutesPerDay
  {
    ModOf(x + q * MinutesPerDay, x / MinutesPerDay + q, x % MinutesPerDay);
  }
}
