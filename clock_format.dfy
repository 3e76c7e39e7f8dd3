/**
 * The text the clock shows for an internal 24-hour time: a zero-padded
 * two-digit 12-hour hour, a colon, a zero-padded two-digit minute, a space
 * and the period token; and the reading of that text back into a time.
 */
module ClockFormat {
  import opened ClockTime

  datatype Option<T> = None | Some(value: T)

  predicate IsDigit(c: char) {
    '0' <= c <= '9'
  }

  function DigitValue(c: char): int {
    c as int - '0' as int
  }

  /** The decimal digit character for `d`. */
  function Digit(d: nat): (c: char)
    requires d < 10
    ensures IsDigit(c) && DigitValue(c) == d
  {
    ('0' as int + d) as char
  }

  /** The number written by two decimal digits. */
  function ReadTwoDigits(s: string): int
    requires |s| >= 2
  {
    DigitValue(s[0]) * 10 + DigitValue(s[1])
  }

  /** `n` in 0..99 written with exactly two digits, zero-padded (`%02d`). */
  function TwoDigits(n: nat): (s: string)
    requires n < 100
    ensures |s| == 2 && IsDigit(s[0]) && IsDigit(s[1])
    ensures ReadTwoDigits(s) == n
  {
    [Digit(n / 10), Digit(n % 10)]
  }

  /** Two digit characters are determined by the number they write. */
  lemma TwoDigitsUnique(s: string, n: nat)
    requires n < 100 && |s| == 2 && IsDigit(s[0]) && IsDigit(s[1])
    requires ReadTwoDigits(s) == n
    ensures s == TwoDigits(n)
  {
    var t := TwoDigits(n);
    assert DigitValue(s[0]) == n / 10 && DigitValue(s[1]) == n % 10;
    assert s[0] == t[0] && s[1] == t[1];
  }

  /**
   * The 12-hour hour shown for an internal hour: midnight and noon read 12,
   * every other hour reads the same as its 24-hour value modulo 12.
   */
  function DisplayHour(hour: int): (d: nat)
    requires 0 <= hour < HoursPerDay
    ensures 1 <= d <= 12
    ensures d % 12 == hour % 12
  {
    if hour == 0 then 12 else if hour > 12 then hour - 12 else hour
  }

  /**
   * The period token as the clock writes it: it starts with "AM" exactly
   * before noon and with "PM" from noon on, and it is the plain token only up
   * to noon; the afternoon hours get "PM:".
   */
  function Period(hour: int): (p: string)
    ensures |p| >= 2 && p[..2] == (if hour < 12 then "AM" else "PM")
    ensures p == CorrectedPeriod(hour) <==> hour <= 12
  {
    if hour < 12 then "AM" else if hour == 12 then "PM" else "PM:"
  }

  /** The period token of the corrected display: "AM" before noon, "PM" from noon on. */
  function CorrectedPeriod(hour: int): string {
    if hour < 12 then "AM" else "PM"
  }

  /** The layout `HH:MM token`; it reads back as exactly the fields it is written from. */
  function Render(hour12: nat, minute: nat, period: string): (s: string)
    requires hour12 < 100 && minute < 100
    ensures |s| == 6 + |period|
    ensures ParseDisplay(s) == Some(Reading(hour12, minute, period))
  {
    TwoDigits(hour12) + ":" + TwoDigits(minute) + " " + period
  }

  /**
   * The display string of the clock for an internal time, as written: the
   * 12-hour hour in 1..12, the exact minute and the period token chosen by
   * the hour.
   */
  function Format(t: Time): (s: string)
    requires ValidTime(t)
    ensures ParseDisplay(s) == Some(Reading(DisplayHour(t.hour), t.minute, Period(t.hour)))
    ensures 1 <= ParseDisplay(s).value.hour12 <= 12
  {
    Render(DisplayHour(t.hour), t.minute, Period(t.hour))
  }

  /** The display string with the corrected period token. */
  function CorrectedFormat(t: Time): string
    requires ValidTime(t)
  {
    Render(DisplayHour(t.hour), t.minute, CorrectedPeriod(t.hour))
  }

  /** The three fields of a display string. */
  datatype Reading = Reading(hour12: nat, minute: nat, period: string)

  /** Split a display string into its hour, minute and period fields; each number has two digits. */
  function ParseDisplay(s: string): (r: Option<Reading>)
    ensures r.Some? ==> r.value.hour12 < 100 && r.value.minute < 100
  {
    if |s| >= 6 && IsDigit(s[0]) && IsDigit(s[1]) && s[2] == ':'
       && IsDigit(s[3]) && IsDigit(s[4]) && s[5] == ' '
    then Some(Reading(ReadTwoDigits(s[0..2]), ReadTwoDigits(s[3..5]), s[6..]))
    else None
  }

  /** A string that parses is the rendering of the fields it parses to. */
  lemma RenderParse(s: string)
    requires ParseDisplay(s).Some?
    ensures var r := ParseDisplay(s).value; s == Render(r.hour12, r.minute, r.period)
  {
    var r := ParseDisplay(s).value;
    TwoDigitsUnique(s[0..2], r.hour12);
    TwoDigitsUnique(s[3..5], r.minute);
    assert s == s[0..2] + [s[2]] + s[3..5] + [s[5]] + s[6..];
  }

  /** The internal hour that a 12-hour hour and a token stand for, as the clock writes them. */
  function Hour24(hour12: int, period: string): Option<int> {
    if period == "AM" && 1 <= hour12 <= 12 then Some(hour12 % 12)
    else if period == "PM" && hour12 == 12 then Some(12)
    else if period == "PM:" && 1 <= hour12 <= 11 then Some(hour12 + 12)
    else None
  }

  /** Read a display string back into an internal time. */
  function DecodeTime(s: string): Option<Time> {
    match ParseDisplay(s)
    case None => None
    case Some(r) =>
      if r.minute < MinutesPerHour then
        match Hour24(r.hour12, r.period)
        case None => None
        case Some(h) => Some(Time(h, r.minute))
      else None
  }

  /** Decoding is the exact inverse of formatting: it accepts precisely the display strings. */
  lemma DecodeIsInverse(s: string, t: Time)
    ensures DecodeTime(s) == Some(t) <==> ValidTime(t) && Format(t) == s
  {
    if DecodeTime(s) == Some(t) {
      RenderParse(s);
      assert s == Format(t);
    }
  }

  /** Different times never show the same string. */
  lemma FormatInjective(a: Time, b: Time)
    requires ValidTime(a) && ValidTime(b)
    ensures Format(a) == Format(b) <==> a == b
  {
    DecodeIsInverse(Format(a), a);
    DecodeIsInverse(Format(a), b);
  }

  /** The corrected display always ends in exactly "AM" or "PM", with "AM" exactly before noon. */
  lemma CorrectedPeriodWellFormed(t: Time)
    requires ValidTime(t)
    ensures ParseDisplay(CorrectedFormat(t)).Some?
    ensures var p := ParseDisplay(CorrectedFormat(t)).value.period;
      p in {"AM", "PM"} && (p == "AM" <==> t.hour < 12)
  {
  }

  /** The internal hour that a 12-hour hour and a corrected token stand for. */
  function CorrectedHour24(hour12: int, period: string): Option<int> {
    if 1 <= hour12 <= 12 && period == "AM" then Some(hour12 % 12)
    else if 1 <= hour12 <= 12 && period == "PM" then Some(hour12 % 12 + 12)
    else None
  }

  /** The corrected display still determines the time. */
  lemma CorrectedFormatRecoversTime(t: Time)
    requires ValidTime(t)
    ensures var r := ParseDisplay(CorrectedFormat(t)).value;
      ParseDisplay(CorrectedFormat(t)).Some? && r.minute == t.minute
      && CorrectedHour24(r.hour12, r.period) == Some(t.hour)
  {
  }

  /** The clock as written and the corrected display differ exactly on the hours after noon. */
  lemma FormatMatchesCorrected(t: Time)
    requires ValidTime(t)
    ensures Format(t) == CorrectedFormat(t) <==> t.hour <= 12
  {
  }

  /** 13:00 shows the malformed "01:00 PM:" where "01:00 PM" is meant. */
  lemma AfternoonTokenMalformed()
    ensures Format(Time(13, 0)) == "01:00 PM:"
    ensures CorrectedFormat(Time(13, 0)) == "01:00 PM"
  {
  }

  /** The display strings at the boundaries of the day. */
  lemma FormatExamples()
    ensures Format(Time(0, 0)) == "12:00 AM"
    ensures Format(Time(0, 5)) == "12:05 AM"
    ensures Format(Time(11, 59)) == "11:59 AM"
    ensures Format(Time(12, 0)) == "12:00 PM"
    ensures Format(Time(23, 59)) == "11:59 PM:"
  {
  }
}
