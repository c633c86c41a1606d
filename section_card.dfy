/**
 * The section card's own copy of the time formatter. It is written out again
 * here, as in the section card, and proved to agree with the schedule card's.
 */
module SectionCard {
  import opened TimeText
  import Card

  /** "HH:MM:SS" as "h:MM AM" or "h:MM PM": the same text as the schedule
      card's formatter on every time it accepts, so the same suffix, hour range
      and minutes properties hold of it. */
  function FormatTime(timeStr: string): (r: string)
    requires Card.HasNumericHours(timeStr)
    ensures r == Card.FormatTime(timeStr)
  {
    var fields := Split(timeStr, ':');
    var hours := fields[0];
    var minutes := if |fields| >= 2 then fields[1] else "undefined";
    var hour := ParseDecimal(hours);
    var ampm := if hour >= 12 then "PM" else "AM";
    var displayHour := if hour % 12 != 0 then hour % 12 else 12;
    ShowNat(displayHour) + ":" + minutes + " " + ampm
  }

  /** The section card's times end in " PM" exactly from noon on, show an hour
      from 1 to 12 congruent to the hour modulo 12, and keep the minutes field. */
  lemma FormatTimeShape(timeStr: string)
    requires Card.HasNumericHours(timeStr)
    ensures var r := FormatTime(timeStr);
            var fields := Split(r[..|r| - 3], ':');
            && (r[|r| - 3..] == " PM" <==> Card.Hour(timeStr) >= 12)
            && |fields| == 2
            && 1 <= ParseDecimal(fields[0]) <= 12
            && ParseDecimal(fields[0]) % 12 == Card.Hour(timeStr) % 12
            && fields[1] == Card.MinutesField(timeStr)
  {
    Card.SuffixFollowsHour(timeStr);
    Card.ShownHourInRange(timeStr);
  }
}
