/** The pydantic models of the service backend (backend/models/appointment.py)
    as validity predicates: what `AppointmentCreate(...)` and
    `Appointment(...)` accept without raising a validation error.  Field
    names follow the Python ones in camel case. */
module Models {
  import opened Wrappers
  import opened Text
  import opened PyTime

  /** `Appointment`: the base fields plus the generated `id` and
      `created_at`, which are inputs here. */
  datatype Appointment = Appointment(
    id: string,
    patientName: string,
    date: string,
    time: string,
    duration: int,
    doctorName: string,
    status: string,
    mode: string,
    createdAt: string)

  /** `AppointmentCreate`: the base fields and an optional status. */
  datatype AppointmentCreate = AppointmentCreate(
    patientName: string,
    date: string,
    time: string,
    duration: int,
    doctorName: string,
    status: Option<string>,
    mode: string)

  // ---------------------------------------------------------------------
  // Field constraints

  /** `min_length=2, max_length=100`. */
  predicate ValidName(s: string) {
    2 <= |s| <= 100
  }

  /** `ge=15, le=180`. */
  predicate ValidDuration(d: int) {
    15 <= d <= 180
  }

  predicate ValidMode(m: string) {
    m == "In-person" || m == "Video" || m == "Phone"
  }

  predicate ValidStatus(s: string) {
    s == "Scheduled" || s == "Confirmed" || s == "Upcoming" || s == "Completed" || s == "Cancelled"
  }

  const DefaultStatus := "Scheduled"

  /** The pattern `^\d{2}:\d{2}$`. */
  predicate TimeShape(t: string) {
    |t| == 5 && IsDigit(t[0]) && IsDigit(t[1]) && t[2] == ':' && IsDigit(t[3]) && IsDigit(t[4])
  }

  function TimeHour(t: string): nat
    requires TimeShape(t)
  {
    DecimalValue(t[..2])
  }

  function TimeMinute(t: string): nat
    requires TimeShape(t)
  {
    DecimalValue(t[3..])
  }

  /** The pattern, then `validate_time`: both halves read as integers, the
      hour in 0..23 and the minute in 0..59. */
  predicate ValidTime(t: string) {
    TimeShape(t) && TimeHour(t) <= 23 && TimeMinute(t) <= 59
  }

  /** The pattern `^\d{4}-\d{2}-\d{2}$`. */
  predicate DateShape(d: string) {
    |d| == 10 && AllDigits(d[..4]) && d[4] == '-' && AllDigits(d[5..7]) && d[7] == '-' && AllDigits(d[8..])
  }

  function DateYear(d: string): nat
    requires DateShape(d)
  {
    DecimalValue(d[..4])
  }

  function DateMonth(d: string): nat
    requires DateShape(d)
  {
    DecimalValue(d[5..7])
  }

  function DateDay(d: string): nat
    requires DateShape(d)
  {
    DecimalValue(d[8..])
  }

  /** Gregorian leap years. */
  predicate IsLeapYear(y: int) {
    y % 4 == 0 && (y % 100 != 0 || y % 400 == 0)
  }

  function DaysInMonth(y: int, m: int): (n: nat)
    requires 1 <= m <= 12
    ensures 28 <= n <= 31
  {
    if m == 2 then (if IsLeapYear(y) then 29 else 28)
    else if m == 4 || m == 6 || m == 9 || m == 11 then 30
    else 31
  }

  /** The pattern, then `validate_date`: `strptime(v, '%Y-%m-%d')` accepts
      a year from 1, a month 1..12 and a day that exists in that month. */
  predicate ValidDate(d: string) {
    DateShape(d) && 1 <= DateYear(d) && 1 <= DateMonth(d) <= 12
    && 1 <= DateDay(d) <= DaysInMonth(DateYear(d), DateMonth(d))
  }

  /** What `AppointmentCreate(...)` accepts; a missing status is allowed. */
  predicate ValidCreate(c: AppointmentCreate) {
    ValidName(c.patientName) && ValidDate(c.date) && ValidTime(c.time) && ValidDuration(c.duration)
    && ValidName(c.doctorName) && ValidMode(c.mode) && (c.status.None? || ValidStatus(c.status.value))
  }

  /** What `Appointment(...)` accepts. */
  predicate ValidAppointment(a: Appointment) {
    ValidName(a.patientName) && ValidDate(a.date) && ValidTime(a.time) && ValidDuration(a.duration)
    && ValidName(a.doctorName) && ValidMode(a.mode) && ValidStatus(a.status)
  }

  // ---------------------------------------------------------------------
  // What the constraints guarantee

  /** A valid time is the minute of the day that strptime reads from it. */
  function TimeMinutes(t: string): (m: nat)
    requires ValidTime(t)
    ensures m < MinutesPerDay
    ensures Strptime(t) == Some(m)
  {
    assert t == t[..2] + ":" + t[3..];
    SplitClock(t[..2], t[3..]);
    TimeHour(t) * 60 + TimeMinute(t)
  }

  /** Every clock time written with two-digit fields is valid. */
  lemma PaddedClockIsValid(h: nat, m: nat)
    requires h <= 23 && m <= 59
    ensures ValidTime(Pad2(h) + ":" + Pad2(m))
    ensures TimeMinutes(Pad2(h) + ":" + Pad2(m)) == h * 60 + m
  {
    Pad2OfNat(h);
    Pad2OfNat(m);
    var t := Pad2(h) + ":" + Pad2(m);
    assert t[..2] == Pad2(h) && t[3..] == Pad2(m);
  }

  /** The number of a date, `yyyymmdd`. */
  function DateNumber(d: string): nat
    requires DateShape(d)
  {
    DateYear(d) * 10000 + DateMonth(d) * 100 + DateDay(d)
  }

  /** A date of the pattern compares as strings field by field, the dashes
      being equal. */
  lemma DateFieldsCompare(d1: string, d2: string)
    requires DateShape(d1) && DateShape(d2)
    ensures Less(d1, d2) <==>
      Less(d1[..4], d2[..4])
      || (d1[..4] == d2[..4] && Less(d1[5..7], d2[5..7]))
      || (d1[..4] == d2[..4] && d1[5..7] == d2[5..7] && Less(d1[8..], d2[8..]))
    ensures d1 == d2 <==> d1[..4] == d2[..4] && d1[5..7] == d2[5..7] && d1[8..] == d2[8..]
  {
    assert d1 == d1[..4] + ([d1[4]] + (d1[5..7] + ([d1[7]] + d1[8..])));
    assert d2 == d2[..4] + ([d2[4]] + (d2[5..7] + ([d2[7]] + d2[8..])));
    LessConcat(d1[..4], [d1[4]] + (d1[5..7] + ([d1[7]] + d1[8..])), d2[..4], [d2[4]] + (d2[5..7] + ([d2[7]] + d2[8..])));
    LessConcat([d1[4]], d1[5..7] + ([d1[7]] + d1[8..]), [d2[4]], d2[5..7] + ([d2[7]] + d2[8..]));
    LessConcat(d1[5..7], [d1[7]] + d1[8..], d2[5..7], [d2[7]] + d2[8..]);
    LessConcat([d1[7]], d1[8..], [d2[7]], d2[8..]);
    assert !Less([d1[4]], [d2[4]]) && !Less([d1[7]], [d2[7]]);
  }

  /** `yyyymmdd` numbers compare by year, then month, then day. */
  lemma DateNumberCompare(y1: nat, m1: nat, x1: nat, y2: nat, m2: nat, x2: nat)
    requires m1 < 100 && x1 < 100 && m2 < 100 && x2 < 100
    ensures y1 * 10000 + m1 * 100 + x1 < y2 * 10000 + m2 * 100 + x2
      <==> y1 < y2 || (y1 == y2 && (m1 < m2 || (m1 == m2 && x1 < x2)))
    ensures y1 * 10000 + m1 * 100 + x1 == y2 * 10000 + m2 * 100 + x2
      <==> y1 == y2 && m1 == m2 && x1 == x2
  {
    var a1, a2 := m1 * 100 + x1, m2 * 100 + x2;
    assert a1 < 10000 && a2 < 10000;
    assert a1 < a2 <==> m1 < m2 || (m1 == m2 && x1 < x2);
    assert y1 * 10000 + a1 < y2 * 10000 + a2 <==> y1 < y2 || (y1 == y2 && a1 < a2);
  }

  /** Comparing two dates of the pattern as strings compares them by year,
      then month, then day. */
  lemma DateOrder(d1: string, d2: string)
    requires DateShape(d1) && DateShape(d2)
    ensures Less(d1, d2) <==> DateNumber(d1) < DateNumber(d2)
    ensures d1 == d2 <==> DateNumber(d1) == DateNumber(d2)
  {
    DateFieldsCompare(d1, d2);
    DigitsLess(d1[..4], d2[..4]);
    DigitsLess(d1[5..7], d2[5..7]);
    DigitsLess(d1[8..], d2[8..]);
    DigitsEqual(d1[..4], d2[..4]);
    DigitsEqual(d1[5..7], d2[5..7]);
    DigitsEqual(d1[8..], d2[8..]);
    DecimalBound(d1[5..7]);
    DecimalBound(d1[8..]);
    DecimalBound(d2[5..7]);
    DecimalBound(d2[8..]);
    assert Pow10(2) == 100;
    DateNumberCompare(DateYear(d1), DateMonth(d1), DateDay(d1), DateYear(d2), DateMonth(d2), DateDay(d2));
  }

  /** Comparing two valid times as strings compares their minutes of the
      day. */
  lemma TimeOrder(t1: string, t2: string)
    requires ValidTime(t1) && ValidTime(t2)
    ensures Less(t1, t2) <==> TimeMinutes(t1) < TimeMinutes(t2)
    ensures t1 == t2 <==> TimeMinutes(t1) == TimeMinutes(t2)
  {
    assert t1 == t1[..2] + ([t1[2]] + t1[3..]);
    assert t2 == t2[..2] + ([t2[2]] + t2[3..]);
    LessConcat(t1[..2], [t1[2]] + t1[3..], t2[..2], [t2[2]] + t2[3..]);
    LessConcat([t1[2]], t1[3..], [t2[2]], t2[3..]);
    assert !Less([t1[2]], [t2[2]]);
    DigitsLess(t1[..2], t2[..2]);
    DigitsLess(t1[3..], t2[3..]);
    DigitsEqual(t1[..2], t2[..2]);
    DigitsEqual(t1[3..], t2[3..]);
  }

  lemma TwoDigitValue(s: string)
    requires |s| == 2 && AllDigits(s)
    ensures DecimalValue(s) == DigitValue(s[0]) * 10 + DigitValue(s[1])
  {
    var h := s[..1];
    assert h[..0] == [] && h[0] == s[0];
    assert DecimalValue(h) == DigitValue(s[0]);
    assert DecimalValue(s) == DecimalValue(h) * 10 + DigitValue(s[1]);
  }

  lemma DateFields(d: string)
    requires DateShape(d)
    ensures DateYear(d) == DecimalValue(d[..2]) * 100 + DigitValue(d[2]) * 10 + DigitValue(d[3])
    ensures DateMonth(d) == DigitValue(d[5]) * 10 + DigitValue(d[6])
    ensures DateDay(d) == DigitValue(d[8]) * 10 + DigitValue(d[9])
  {
    var y := d[..4];
    assert y[..3] == d[..3] && d[..3][..2] == d[..2];
    assert DecimalValue(y) == DecimalValue(d[..3]) * 10 + DigitValue(d[3]);
    assert DecimalValue(d[..3]) == DecimalValue(d[..2]) * 10 + DigitValue(d[2]);
    TwoDigitValue(d[5..7]);
    TwoDigitValue(d[8..]);
  }

  /** The three numbers of a concrete date of the pattern. */
  lemma DateOfDigits(d: string, y: nat, m: nat, day: nat)
    requires |d| == 10 && d[4] == '-' && d[7] == '-'
    requires IsDigit(d[0]) && IsDigit(d[1]) && IsDigit(d[2]) && IsDigit(d[3])
    requires IsDigit(d[5]) && IsDigit(d[6]) && IsDigit(d[8]) && IsDigit(d[9])
    requires DigitValue(d[0]) * 1000 + DigitValue(d[1]) * 100 + DigitValue(d[2]) * 10 + DigitValue(d[3]) == y
    requires DigitValue(d[5]) * 10 + DigitValue(d[6]) == m && DigitValue(d[8]) * 10 + DigitValue(d[9]) == day
    ensures DateShape(d)
    ensures DateYear(d) == y && DateMonth(d) == m && DateDay(d) == day
  {
    assert AllDigits(d[..4]) && AllDigits(d[5..7]) && AllDigits(d[8..]);
    DateFields(d);
    assert AllDigits(d[..2]);
    TwoDigitValue(d[..2]);
  }

  /** The three numbers of the date spelled by eight digit characters. */
  lemma DateOfChars(y0: char, y1: char, y2: char, y3: char, m0: char, m1: char, d0: char, d1: char)
    requires IsDigit(y0) && IsDigit(y1) && IsDigit(y2) && IsDigit(y3)
    requires IsDigit(m0) && IsDigit(m1) && IsDigit(d0) && IsDigit(d1)
    ensures var d := [y0, y1, y2, y3, '-', m0, m1, '-', d0, d1];
      && DateShape(d)
      && DateYear(d) == DigitValue(y0) * 1000 + DigitValue(y1) * 100 + DigitValue(y2) * 10 + DigitValue(y3)
      && DateMonth(d) == DigitValue(m0) * 10 + DigitValue(m1)
      && DateDay(d) == DigitValue(d0) * 10 + DigitValue(d1)
  {
    var d := [y0, y1, y2, y3, '-', m0, m1, '-', d0, d1];
    DateOfDigits(d, DigitValue(y0) * 1000 + DigitValue(y1) * 100 + DigitValue(y2) * 10 + DigitValue(y3),
      DigitValue(m0) * 10 + DigitValue(m1), DigitValue(d0) * 10 + DigitValue(d1));
  }

  /** Divisible by 4: 29 February exists; not in the year before. */
  lemma LeapDayIn2024()
    ensures ValidDate("2024-02-29")
    ensures !ValidDate("2023-02-29")
  {
    assert ValidDate("2024-02-29") by {
      DateOfChars('2', '0', '2', '4', '0', '2', '2', '9');
    }
    assert !ValidDate("2023-02-29") by {
      DateOfChars('2', '0', '2', '3', '0', '2', '2', '9');
    }
  }

  /** Divisible by 100 but not by 400: no 29 February; by 400: there is one. */
  lemma LeapDayInCenturies()
    ensures !ValidDate("1900-02-29")
    ensures ValidDate("2000-02-29")
  {
    assert !ValidDate("1900-02-29") by {
      DateOfChars('1', '9', '0', '0', '0', '2', '2', '9');
    }
    assert ValidDate("2000-02-29") by {
      DateOfChars('2', '0', '0', '0', '0', '2', '2', '9');
    }
  }

  /** A 31st in a 30-day month, month 13 and year 0 are rejected. */
  lemma InvalidDateExamples()
    ensures !ValidDate("2025-04-31")
    ensures !ValidDate("2025-13-01")
    ensures !ValidDate("0000-01-01")
  {
    assert !ValidDate("2025-04-31") by {
      DateOfChars('2', '0', '2', '5', '0', '4', '3', '1');
    }
    assert !ValidDate("2025-13-01") by {
      DateOfChars('2', '0', '2', '5', '1', '3', '0', '1');
    }
    assert !ValidDate("0000-01-01") by {
      DateOfChars('0', '0', '0', '0', '0', '1', '0', '1');
    }
  }

  /** A missing status is filled in with "Scheduled", so the status of the
      created appointment is always one the model accepts. */
  function StatusOrDefault(s: Option<string>): (r: string)
    ensures s.None? || s.value == "" ==> r == DefaultStatus
    ensures s.Some? && s.value != "" ==> r == s.value
    ensures (s.None? || ValidStatus(s.value)) ==> ValidStatus(r)
  {
    if s.None? || s.value == "" then DefaultStatus else s.value
  }
}
