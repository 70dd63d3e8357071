/** Python's `datetime.strptime(s, "%H:%M")`, which both backends use to read
    a clock time.  A parsed time is kept as minutes since midnight on the
    fixed date strptime supplies (1900-01-01), so `start + timedelta(minutes=d)`
    is `start + d` while the sum stays within the years 1 to 9999 that a
    `datetime` can hold, and comparing datetimes is comparing integers. */
module PyTime {
  import opened Wrappers
  import opened Text

  const MinutesPerDay := 1440

  /** `%H` matches `2[0-3]|[0-1]\d|\d` and `%M` matches `[0-5]\d|\d`, and no
      text may remain after the match: one or two digits for the hour, at
      most 23, a colon, and one or two digits for the minute, at most 59. */
  function Strptime(t: string): (r: Option<nat>)
    ensures r.Some? ==> r.value < MinutesPerDay
  {
    var parts := Split(t, ':');
    if |parts| == 2 && 1 <= |parts[0]| <= 2 && 1 <= |parts[1]| <= 2
       && AllDigits(parts[0]) && AllDigits(parts[1])
    then
      var h := DecimalValue(parts[0]);
      var m := DecimalValue(parts[1]);
      if h <= 23 && m <= 59 then Some(h * 60 + m) else None
    else None
  }

  lemma DigitStringHasNoColon(s: string)
    requires AllDigits(s)
    ensures ':' !in s
  {
    assert forall i :: 0 <= i < |s| ==> s[i] != ':';
  }

  /** Two digit strings around a colon split into exactly those two. */
  lemma SplitClock(hh: string, mm: string)
    requires AllDigits(hh) && AllDigits(mm)
    ensures Split(hh + ":" + mm, ':') == [hh, mm]
  {
    DigitStringHasNoColon(hh);
    DigitStringHasNoColon(mm);
    SplitAfterPiece(hh, ':', mm);
    SplitNoSep(mm, ':');
  }

  /** Every clock time written "HH:MM" reads back as its minute of the day. */
  lemma StrptimeOfPaddedClock(h: nat, m: nat)
    requires h <= 23 && m <= 59
    ensures Strptime(Pad2(h) + ":" + Pad2(m)) == Some(h * 60 + m)
  {
    Pad2OfNat(h);
    Pad2OfNat(m);
    SplitClock(Pad2(h), Pad2(m));
  }

  /** A one-digit hour is accepted. */
  lemma StrptimeOneDigitHour()
    ensures Strptime("9:05") == Some(545)
  {
    SplitClock("9", "05");
    assert "9" + ":" + "05" == "9:05";
    assert "9"[..0] == "" && "05"[..1] == "0" && "0"[..0] == "";
    assert DecimalValue("9") == 9 && DecimalValue("05") == 5;
  }

  /** Hour 24 and minute 60 are rejected. */
  lemma StrptimeOutOfRange()
    ensures Strptime("24:00") == None
    ensures Strptime("10:60") == None
  {
    SplitClock("24", "00");
    assert "24" + ":" + "00" == "24:00";
    assert "24"[..1] == "2" && "2"[..0] == "";
    assert DecimalValue("24") == 24;
    SplitClock("10", "60");
    assert "10" + ":" + "60" == "10:60";
    assert "60"[..1] == "6" && "6"[..0] == "";
    assert DecimalValue("60") == 60;
  }

  /** `datetime.min` (0001-01-01 00:00) in minutes from 1900-01-01 00:00:
      693595 days earlier. */
  const EarliestMinute: int := -693595 * MinutesPerDay

  /** The last whole minute a `datetime` can hold (9999-12-31 23:59) in
      minutes from 1900-01-01 00:00: 2958463 days and 1439 minutes later. */
  const LatestMinute: int := 2958463 * MinutesPerDay + 1439

  /** `parsed + timedelta(minutes=duration)` for a time parsed as `start`:
      None for the OverflowError raised when the sum leaves the range of
      `datetime` (a duration too large for `timedelta` itself lies beyond
      that range as well). */
  function AddMinutes(start: int, duration: int): Option<int> {
    var end := start + duration;
    if EarliestMinute <= end <= LatestMinute then Some(end) else None
  }

  /** For a clock time and a duration in GraphQL's 32-bit `Int` range, the
      addition fails exactly when the end falls before year 1; it never
      runs past year 9999. */
  lemma Int32DurationOverflowsOnlyBelow(start: nat, duration: int)
    requires start < MinutesPerDay
    requires -0x8000_0000 <= duration < 0x8000_0000
    ensures AddMinutes(start, duration).None? <==> start + duration < EarliestMinute
    ensures AddMinutes(start, duration).Some? ==> AddMinutes(start, duration).value == start + duration
  {
  }

  /** Any duration of less than 693595 days either way is added without
      overflow to a clock time. */
  lemma NoOverflowWithinCenturies(start: nat, duration: int)
    requires start < MinutesPerDay
    requires -693595 * MinutesPerDay + MinutesPerDay <= duration <= 693595 * MinutesPerDay
    ensures AddMinutes(start, duration) == Some(start + duration)
  {
  }

  /** A seconds field is text left over after the match. */
  lemma StrptimeRejectsSeconds()
    ensures Strptime("10:30:00") == None
  {
    assert "10:30:00" == "10" + [':'] + "30:00";
    DigitStringHasNoColon("10");
    SplitAfterPiece("10", ':', "30:00");
    SplitClock("30", "00");
  }
}
