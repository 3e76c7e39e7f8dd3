/**
 * A digital 12-hour AM/PM clock that runs internally as a 24-hour clock:
 * two wrap-around counters (hours modulo 24, minutes modulo 60) and a cached
 * display string recomputed after every change.
 */
module Clock {
  import opened NumberDisplays
  import opened ClockTime
  import opened ClockFormat

  class ClockDisplay {
    const hours: NumberDisplay
    const minutes: NumberDisplay
    /** What the display currently shows. */
    var displayString: string
    /** Whether the current internal hour is before noon; written by UpdateDisplay. */
    var isAM: bool

    /** The two counters are distinct, well-formed and have limits 24 and 60. */
    ghost predicate CountersValid()
      reads this, hours, minutes
    {
      hours != minutes && hours.Valid() && minutes.Valid()
      && hours.limit == HoursPerDay && minutes.limit == MinutesPerHour
    }

    /** The time the counters hold. */
    ghost function Now(): Time
      reads this, hours, minutes
    {
      Time(hours.value, minutes.value)
    }

    /** The object invariant: the cached string is never stale. */
    ghost predicate Valid()
      reads this, hours, minutes
    {
      CountersValid() && ValidTime(Now()) && displayString == Format(Now())
    }

    /** A new clock set at midnight, 12:00 AM. */
    constructor ()
      ensures Valid() && fresh(hours) && fresh(minutes)
      ensures Now() == Time(0, 0)
    {
      hours := new NumberDisplay(HoursPerDay);
      minutes := new NumberDisplay(MinutesPerHour);
      new;
      SetTime(0, 0);
    }

    /** A new clock set at the given internal time. */
    constructor Init(hour: int, minute: int)
      requires 0 <= hour < HoursPerDay && 0 <= minute < MinutesPerHour
      ensures Valid() && fresh(hours) && fresh(minutes)
      ensures Now() == Time(hour, minute)
    {
      hours := new NumberDisplay(HoursPerDay);
      minutes := new NumberDisplay(MinutesPerHour);
      new;
      SetTime(hour, minute);
    }

    /** Advance one minute; the hour advances when the minutes roll over to zero. */
    method TimeTick()
      requires Valid()
      modifies this, hours, minutes
      ensures Valid()
      ensures Now() == Tick(old(Now()))
      ensures minutes.value == (old(minutes.value) + 1) % MinutesPerHour
      ensures hours.value == if minutes.value == 0 then (old(hours.value) + 1) % HoursPerDay
                             else old(hours.value)
    {
      minutes.Increment();
      if minutes.GetValue() == 0 {
        hours.Increment();
      }
      UpdateDisplay();
    }

    /** Set the internal time and recompute the display. */
    method SetTime(hour: int, minute: int)
      requires CountersValid()
      requires 0 <= hour < HoursPerDay && 0 <= minute < MinutesPerHour
      modifies this, hours, minutes
      ensures Valid()
      ensures Now() == Time(hour, minute)
    {
      hours.SetValue(hour);
      minutes.SetValue(minute);
      UpdateDisplay();
    }

    /** The current display string; a pure read of the cache. */
    function GetTime(): (s: string)
      reads this, hours, minutes
      requires Valid()
      ensures s == Format(Now())
    {
      displayString
    }

    /** Recompute the cached display string from the counters. */
    method UpdateDisplay()
      requires CountersValid()
      modifies this
      ensures Valid()
      ensures isAM == (hours.value < 12)
    {
      var currentHour := hours.GetValue();
      var amOrPmString: string;

      if currentHour < 12 {
        isAM := true;
      } else {
        isAM := false;
      }

      if currentHour == 0 {
        currentHour := 12;
      } else if currentHour > 12 {
        currentHour := currentHour - 12;
      }

      if currentHour == 12 && isAM {
        amOrPmString := "AM";
      } else if currentHour == 12 && !isAM {
        amOrPmString := "PM";
      } else {
        amOrPmString := if isAM then "AM" else "PM:";
      }

      displayString := Render(currentHour, minutes.GetValue(), amOrPmString);
    }
  }

  /** A default clock shows midnight. */
  method DefaultClockShowsMidnight() returns (shown: string)
    ensures shown == "12:00 AM"
  {
    var clock := new ClockDisplay();
    shown := clock.GetTime();
    FormatExamples();
  }

  /** One tick from 23:59 wraps both counters and shows midnight. */
  method TickAtMidnight() returns (before: string, after: string, hour: nat, minute: nat)
    ensures before == "11:59 PM:" && after == "12:00 AM"
    ensures hour == 0 && minute == 0
  {
    var clock := new ClockDisplay.Init(23, 59);
    before := clock.GetTime();
    clock.TimeTick();
    after := clock.GetTime();
    hour, minute := clock.hours.GetValue(), clock.minutes.GetValue();
    FormatExamples();
  }

  /** Reading the display twice, with no change in between, gives the same string. */
  method GetTimeIsStable(clock: ClockDisplay) returns (first: string, second: string)
    requires clock.Valid()
    ensures first == second == Format(clock.Now())
  {
    first := clock.GetTime();
    second := clock.GetTime();
  }

  /** Setting an in-range time shows it, and fixes both counters to it. */
  method SetTimeShows(clock: ClockDisplay, hour: int, minute: int) returns (shown: string)
    requires clock.Valid()
    requires 0 <= hour < HoursPerDay && 0 <= minute < MinutesPerHour
    modifies clock, clock.hours, clock.minutes
    ensures clock.Valid() && clock.hours.value == hour && clock.minutes.value == minute
    ensures DecodeTime(shown) == Some(Time(hour, minute))
  {
    clock.SetTime(hour, minute);
    shown := clock.GetTime();
    DecodeIsInverse(shown, Time(hour, minute));
  }
}
