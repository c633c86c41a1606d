/**
 * The time formatter of the schedule card: a 24-hour "HH:MM:SS" time becomes
 * a 12-hour "h:MM AM" or "h:MM PM" time.
 */
module Card {
  import opened TimeText

  /** The text before the first colon. */
  function HoursField(timeStr: string): string
  {
    Split(timeStr, ':')[0]
  }

  /** The text between the first and the second colon; a string without a
      colon has no minutes field, and the template then shows "undefined". */
  function MinutesField(timeStr: string): (m: string)
    ensures ':' !in m
  {
    var fields := Split(timeStr, ':');
    if |fields| >= 2 then fields[1] else "undefined"
  }

  /** `Number.MAX_SAFE_INTEGER`, 2^53 - 1: `parseInt` reads every digit string
      up to this value exactly; above it the result is rounded to a double. */
  const MaxSafeInteger: nat := 9007199254740991

  /** The hours field is a decimal number that `parseInt` reads exactly, as
      the hours 0 to 23 of the times the server sends are. */
  predicate HasNumericHours(timeStr: string)
  {
    IsDigits(HoursField(timeStr)) && ParseDecimal(HoursField(timeStr)) <= MaxSafeInteger
  }

  /** The hour that `parseInt` reads from the hours field. */
  function Hour(timeStr: string): nat
    requires HasNumericHours(timeStr)
  {
    ParseDecimal(HoursField(timeStr))
  }

  /** The 12-hour clock's hour: `hour % 12`, or 12 where that is 0. It is the
      one number from 1 to 12 with the same remainder modulo 12 as `hour`. */
  function DisplayHour(hour: nat): (d: nat)
    ensures 1 <= d <= 12
    ensures d % 12 == hour % 12
  {
    if hour % 12 != 0 then hour % 12 else 12
  }

  /** "PM" from noon on, "AM" before. */
  function Meridiem(hour: nat): string
  {
    if hour >= 12 then "PM" else "AM"
  }

  /** The card's time text: the display hour, a colon, the minutes field as
      given, a space and the meridiem; the seconds field is not used. Read
      back, the text before the final " AM" or " PM" splits at its one colon
      into the display hour and the minutes field. */
  function FormatTime(timeStr: string): (r: string)
    requires HasNumericHours(timeStr)
    ensures |r| >= 3
    ensures r[|r| - 3..] == " " + Meridiem(Hour(timeStr))
    ensures Split(r[..|r| - 3], ':') == [ShowNat(DisplayHour(Hour(timeStr))), MinutesField(timeStr)]
  {
    var hour := Hour(timeStr);
    var minutes := MinutesField(timeStr);
    var ampm := Meridiem(hour);
    var shown := ShowNat(DisplayHour(hour));
    var r := shown + ":" + minutes + " " + ampm;
    assert r[..|r| - 3] == shown + [':'] + minutes;
    DigitsHaveNoSeparators(shown);
    SplitAfterField(shown, ':', minutes);
    SplitWhole(minutes, ':');
    r
  }

  /** The text ends in " PM" exactly when the hour is 12 or more, and in " AM"
      exactly when it is less. */
  lemma SuffixFollowsHour(timeStr: string)
    requires HasNumericHours(timeStr)
    ensures var r := FormatTime(timeStr);
            (r[|r| - 3..] == " PM" <==> Hour(timeStr) >= 12) &&
            (r[|r| - 3..] == " AM" <==> Hour(timeStr) < 12)
  {
    var r := FormatTime(timeStr);
    assert " PM" != " AM";
  }

  /** The hour shown reads back as a number from 1 to 12 that agrees with the
      hour modulo 12: midnight (0) and noon (12) both show as 12. */
  lemma ShownHourInRange(timeStr: string)
    requires HasNumericHours(timeStr)
    ensures var r := FormatTime(timeStr);
            var shown := Split(r[..|r| - 3], ':')[0];
            IsDigits(shown) &&
            1 <= ParseDecimal(shown) <= 12 &&
            ParseDecimal(shown) % 12 == Hour(timeStr) % 12 &&
            (Hour(timeStr) == 0 || Hour(timeStr) == 12 ==> ParseDecimal(shown) == 12)
  {
    ParseShow(DisplayHour(Hour(timeStr)));
  }

  /** The minutes field is copied as it is and whatever follows the second
      colon (the seconds) makes no difference. */
  lemma SecondsIgnored(hours: string, minutes: string, seconds1: string, seconds2: string)
    requires IsDigits(hours) && ParseDecimal(hours) <= MaxSafeInteger && ':' !in minutes
    ensures HasNumericHours(hours + ":" + minutes + ":" + seconds1)
    ensures HasNumericHours(hours + ":" + minutes + ":" + seconds2)
    ensures HasNumericHours(hours + ":" + minutes)
    ensures FormatTime(hours + ":" + minutes + ":" + seconds1) ==
            FormatTime(hours + ":" + minutes + ":" + seconds2)
    ensures FormatTime(hours + ":" + minutes + ":" + seconds1) ==
            FormatTime(hours + ":" + minutes)
    ensures MinutesField(hours + ":" + minutes + ":" + seconds1) == minutes
    ensures Hour(hours + ":" + minutes + ":" + seconds1) == ParseDecimal(hours)
  {
    DigitsHaveNoSeparators(hours);
    forall seconds | seconds in {seconds1, seconds2}
      ensures Split(hours + ":" + minutes + ":" + seconds, ':') ==
              [hours, minutes] + Split(seconds, ':')
    {
      assert hours + ":" + minutes + ":" + seconds == hours + [':'] + (minutes + [':'] + seconds);
      SplitAfterField(hours, ':', minutes + [':'] + seconds);
      SplitAfterField(minutes, ':', seconds);
    }
    assert hours + ":" + minutes == hours + [':'] + minutes;
    SplitAfterField(hours, ':', minutes);
    SplitWhole(minutes, ':');
  }

  /** For "HH:MM:SS" the text is the display hour, a colon, MM, a space and
      AM or PM. */
  lemma FormatTimeOfFields(hours: string, minutes: string, seconds: string)
    requires IsDigits(hours) && ParseDecimal(hours) <= MaxSafeInteger && ':' !in minutes
    ensures HasNumericHours(hours + ":" + minutes + ":" + seconds)
    ensures FormatTime(hours + ":" + minutes + ":" + seconds) ==
            ShowNat(DisplayHour(ParseDecimal(hours))) + ":" + minutes + " " +
            Meridiem(ParseDecimal(hours))
  {
    SecondsIgnored(hours, minutes, seconds, seconds);
  }
}
