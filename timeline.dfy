/** The day timeline of one doctor (frontend/components/DoctorTimeline.tsx):
    fifteen hourly slots from 07:00 to 21:00, each empty, the start of an
    appointment block, or the continuation of the block above it. */
module DoctorTimeline {
  import opened Wrappers
  import opened Text
  import opened Seqs
  import opened Records

  const FirstHour: int := 7
  const LastHour: int := 21
  const SlotCount: int := LastHour - FirstHour + 1

  // ---------------------------------------------------------------------
  // Reading times the way the component does

  /** `parseInt(s)` on the text of one field: a run of ASCII digits is a
      number, anything else is NaN (`None`). */
  function ParseIntJs(s: string): Option<nat> {
    ParseDecimal(s)
  }

  /** `Number(s)` on the text of one field: like `parseInt`, except that the
      empty text is 0. */
  function NumberJs(s: string): Option<nat> {
    if s == "" then Some(0) else ParseDecimal(s)
  }

  /** `parseInt(t.split(':')[0])`: the hour of an `HH:MM` time. */
  function HourOf(t: string): Option<nat> {
    ParseIntJs(Split(t, ':')[0])
  }

  /** `t.split(':').map(Number)` destructured into `[hours, minutes]`. */
  function ClockOf(t: string): Option<(nat, nat)> {
    var parts := Split(t, ':');
    if |parts| < 2 then None
    else
      match (NumberJs(parts[0]), NumberJs(parts[1]))
      case (Some(h), Some(m)) => Some((h, m))
      case _ => None
  }

  /** `Math.ceil(a / b)` for a positive divisor. */
  function CeilDiv(a: int, b: int): (q: int)
    requires b > 0
    ensures b * q >= a && b * q < a + b
  {
    (a + b - 1) / b
  }

  /** JavaScript's `a % b`, whose sign follows the dividend. */
  function JsRem(a: int, b: int): (r: int)
    requires b > 0
    ensures a >= 0 ==> r == a % b
    ensures a >= 0 ==> 0 <= r < b
    ensures a < 0 ==> -b < r <= 0
    ensures (a - r) % b == 0
  {
    RemovesMultiple(a, b);
    if a >= 0 then a % b else -((-a) % b)
  }

  /** Taking away the remainder leaves a multiple of the divisor, whichever
      sign the remainder takes. */
  lemma RemovesMultiple(a: int, b: int)
    requires b > 0
    ensures (a - a % b) % b == 0
    ensures a < 0 ==> (a - -((-a) % b)) % b == 0
  {
    RemUnique(b, a - a % b, a / b, 0);
    if a < 0 {
      var q := (-a) / b;
      assert -a == b * q + (-a) % b;
      RemUnique(b, a - -((-a) % b), -q, 0);
    }
  }

  /** `b * k` is at least `b` for a positive multiplier. */
  lemma MulAtLeast(b: int, k: int)
    requires b > 0 && k >= 1
    ensures b * k >= b
  {
    assert b * k == b * (k - 1) + b;
    assert b * (k - 1) >= 0;
  }

  /** Euclidean remainders are unique. */
  lemma RemUnique(b: int, x: int, q: int, r: int)
    requires b > 0 && x == b * q + r && 0 <= r < b
    ensures x % b == r
  {
    var d, m := x / b, x % b;
    assert x == b * d + m;
    assert b * (q - d) == m - r;
    if q - d >= 1 {
      MulAtLeast(b, q - d);
    } else if d - q >= 1 {
      MulAtLeast(b, d - q);
    }
  }

  // ---------------------------------------------------------------------
  // The slot labels

  /** The label of the slot for `hour`: `${hour.padStart(2, '0')}:00`. */
  function SlotLabel(hour: int): string {
    Pad2(hour) + ":00"
  }

  /** The labels `timeSlots` holds, in order. */
  function SlotLabels(): seq<string> {
    seq(SlotCount, i => SlotLabel(FirstHour + i))
  }

  /** `timeSlots`: a loop over the hours 7 to 21 pushing each label. */
  method TimeSlots() returns (slots: seq<string>)
    ensures |slots| == SlotCount
    ensures forall i :: 0 <= i < |slots| ==> slots[i] == SlotLabel(FirstHour + i)
  {
    slots := [];
    for hour := FirstHour to LastHour + 1
      invariant |slots| == hour - FirstHour
      invariant forall i :: 0 <= i < |slots| ==> slots[i] == SlotLabel(FirstHour + i)
    {
      slots := slots + [SlotLabel(hour)];
    }
  }

  /** A two-digit hour written out digit by digit. */
  lemma Pad2Digits(n: nat)
    requires n < 100
    ensures Pad2(n) == [DigitChar(n / 10), DigitChar(n % 10)]
  {
    if n >= 10 {
      assert NatToString(n) == NatToString(n / 10) + [DigitChar(n % 10)];
    }
  }

  /** The slot label of an hour splits into the two-digit hour and "00",
      and reads back as that hour, minute 0. */
  lemma SlotLabelReadsBack(h: nat)
    requires h < 100
    ensures |SlotLabel(h)| == 5
    ensures Split(SlotLabel(h), ':') == [Pad2(h), "00"]
    ensures HourOf(SlotLabel(h)) == Some(h)
    ensures ClockOf(SlotLabel(h)) == Some((h, 0))
  {
    Pad2OfNat(h);
    SlotLabelSplits(h);
    ZeroMinutesRead();
  }

  lemma SlotLabelSplits(h: nat)
    requires h < 100
    ensures Split(SlotLabel(h), ':') == [Pad2(h), "00"]
  {
    Pad2Digits(h);
    assert Join([Pad2(h), "00"], ':') == SlotLabel(h);
    SplitJoin([Pad2(h), "00"], ':');
  }

  lemma ZeroMinutesRead()
    ensures ParseDecimal("00") == Some(0)
  {
    DecimalLeadingZero("0");
  }

  /** Two-digit labels compare as their hours do. */
  lemma SlotLabelOrder(a: nat, b: nat)
    requires a < b < 100
    ensures Less(SlotLabel(a), SlotLabel(b))
  {
    Pad2Digits(a);
    Pad2Digits(b);
    var x, y := SlotLabel(a), SlotLabel(b);
    if a / 10 == b / 10 {
      assert x[0] == y[0];
      assert x[1..][0] < y[1..][0];
    } else {
      assert x[0] < y[0];
    }
  }

  /** There are fifteen slots, "07:00" first and "21:00" last; every label is
      five characters, reads back as its hour, and the labels ascend. */
  lemma SlotLabelsShape()
    ensures |SlotLabels()| == 15
    ensures SlotLabels()[0] == "07:00" && SlotLabels()[14] == "21:00"
    ensures forall i :: 0 <= i < 15 ==>
      |SlotLabels()[i]| == 5 && HourOf(SlotLabels()[i]) == Some(FirstHour + i)
    ensures forall i, j :: 0 <= i < j < 15 ==> Less(SlotLabels()[i], SlotLabels()[j])
  {
    assert SlotLabels()[0] == "07:00" by {
      SlotLabelAt(0);
      Pad2Digits(7);
    }
    assert SlotLabels()[14] == "21:00" by {
      SlotLabelAt(14);
      Pad2Digits(21);
    }
    forall i | 0 <= i < 15
      ensures |SlotLabels()[i]| == 5 && HourOf(SlotLabels()[i]) == Some(FirstHour + i)
    {
      SlotLabelAt(i);
      SlotLabelReadsBack(FirstHour + i);
    }
    forall i, j | 0 <= i < j < 15 ensures Less(SlotLabels()[i], SlotLabels()[j]) {
      SlotLabelAt(i);
      SlotLabelAt(j);
      SlotLabelOrder(FirstHour + i, FirstHour + j);
    }
  }

  lemma SlotLabelAt(i: nat)
    requires i < SlotCount
    ensures |SlotLabels()| == SlotCount && SlotLabels()[i] == SlotLabel(FirstHour + i)
  {
    assert |SlotLabels()| == SlotCount;
    assert SlotLabels()[i] == SlotLabel(FirstHour + i);
  }

  // ---------------------------------------------------------------------
  // Occupancy

  /** The appointments of one doctor on one day, in list order. */
  function DoctorAppointments(appointments: seq<Appointment>, doctor: string, date: string): (r: seq<Appointment>)
    ensures forall i :: 0 <= i < |r| ==> r[i] in appointments && r[i].doctorName == doctor && r[i].date == date
    ensures forall i :: 0 <= i < |appointments| && appointments[i].doctorName == doctor && appointments[i].date == date
              ==> appointments[i] in r
    ensures r == [] <==> forall i :: 0 <= i < |appointments| ==>
              appointments[i].doctorName != doctor || appointments[i].date != date
  {
    Filter((a: Appointment) => a.doctorName == doctor && a.date == date, appointments)
  }

  /** A doctor's day keeps the list order. */
  lemma DoctorAppointmentsKeepOrder(appointments: seq<Appointment>, doctor: string, date: string)
    ensures IsSubsequence(DoctorAppointments(appointments, doctor, date), appointments)
  {
    FilterIsSubsequence((a: Appointment) => a.doctorName == doctor && a.date == date, appointments);
  }

  /** Does the appointment's hour range `[start hour, start hour +
      ceil(duration / 60))` contain the slot hour?  The start minutes are
      ignored; a time whose hour is NaN covers nothing. */
  predicate Covers(a: Appointment, slotHour: int) {
    match HourOf(a.time)
    case None => false
    case Some(h) => h <= slotHour < h + CeilDiv(a.duration, 60)
  }

  /** `getAppointmentAtTime`: the first of the day's appointments covering
      the slot's hour, if any. */
  function AppointmentAt(dayAppointments: seq<Appointment>, slot: string): (r: Option<Appointment>)
    ensures HourOf(slot).None? ==> r.None?
    ensures HourOf(slot).Some? && r.None? ==>
      forall i :: 0 <= i < |dayAppointments| ==> !Covers(dayAppointments[i], HourOf(slot).value)
    ensures r.Some? ==> HourOf(slot).Some?
    ensures r.Some? ==>
      exists k :: 0 <= k < |dayAppointments| && dayAppointments[k] == r.value
        && Covers(r.value, HourOf(slot).value)
        && forall j :: 0 <= j < k ==> !Covers(dayAppointments[j], HourOf(slot).value)
  {
    match HourOf(slot)
    case None => None
    case Some(h) =>
      var p := (a: Appointment) => Covers(a, h);
      var k := FirstIndex(p, dayAppointments);
      if k.None? then None
      else
        assert p(dayAppointments[k.value]);
        Some(dayAppointments[k.value])
  }

  // ---------------------------------------------------------------------
  // What a block shows

  /** The end of an appointment, `HH:MM` from `hours * 60 + minutes +
      duration`, with the hour not wrapped at 24. */
  function EndLabel(hours: int, minutes: int, duration: int): string {
    var total := hours * 60 + minutes + duration;
    Pad2(total / 60) + ":" + Pad2(JsRem(total, 60))
  }

  /** The end label of a time as written; NaN parts give "NaN:NaN". */
  function EndLabelOf(time: string, duration: int): string {
    match ClockOf(time)
    case None => "NaN:NaN"
    case Some((h, m)) => EndLabel(h, m, duration)
  }

  /** The block height in pixels, `Math.ceil(duration / 15) * 15`. */
  function BlockHeight(duration: int): int {
    CeilDiv(duration, 15) * 15
  }

  /** `formatTime`: a 12-hour label of the hour of `time`, always ":00". */
  function FormatTime(time: string): string {
    match HourOf(time)
    case None => "NaN:00 AM"
    case Some(h) =>
      IntToString(if h > 12 then h - 12 else h) + ":00 " + (if h >= 12 then "PM" else "AM")
  }

  // ---------------------------------------------------------------------
  // The timeline

  datatype Role =
    | Available
    | BlockStart(height: int, endLabel: string)
    | Continuation

  datatype Slot = Slot(slotLabel: string, timeLabel: string, occupant: Option<Appointment>, role: Role)

  /** One row of the timeline: the slot's occupant and whether the block
      starts here, which is decided by the appointment's time being
      literally the slot label. */
  function SlotAt(dayAppointments: seq<Appointment>, slotLabel: string): Slot {
    var occupant := AppointmentAt(dayAppointments, slotLabel);
    var role :=
      match occupant
      case None => Available
      case Some(a) =>
        if a.time == slotLabel then BlockStart(BlockHeight(a.duration), EndLabelOf(a.time, a.duration))
        else Continuation;
    Slot(slotLabel, FormatTime(slotLabel), occupant, role)
  }

  /** The rendered timeline for a doctor and a date. */
  function Timeline(appointments: seq<Appointment>, doctor: string, date: string): (slots: seq<Slot>)
    ensures |slots| == SlotCount
    ensures forall i :: 0 <= i < SlotCount ==> slots[i].slotLabel == SlotLabels()[i]
  {
    var day := DoctorAppointments(appointments, doctor, date);
    seq(SlotCount, i requires 0 <= i < SlotCount => SlotAt(day, SlotLabels()[i]))
  }

  /** "{n} appointment(s) scheduled". */
  function AppointmentCount(appointments: seq<Appointment>, doctor: string, date: string): (n: nat)
    ensures n <= |appointments|
    ensures n == 0 <==> forall i :: 0 <= i < |appointments| ==>
              appointments[i].doctorName != doctor || appointments[i].date != date
  {
    |DoctorAppointments(appointments, doctor, date)|
  }

  // ---------------------------------------------------------------------
  // Properties

  /** With no appointment for the doctor on that day, the count is 0 and every
      slot is available. */
  lemma EmptyDayIsAvailable(appointments: seq<Appointment>, doctor: string, date: string)
    requires forall i :: 0 <= i < |appointments| ==>
      appointments[i].doctorName != doctor || appointments[i].date != date
    ensures AppointmentCount(appointments, doctor, date) == 0
    ensures forall i :: 0 <= i < SlotCount ==>
      Timeline(appointments, doctor, date)[i].occupant == None &&
      Timeline(appointments, doctor, date)[i].role == Available
  {
  }

  /** The occupant of a slot is the first appointment of the day, in list
      order, whose hour range holds the slot hour: a later appointment that
      also covers the slot is not shown there. */
  lemma FirstCoverWins(day: seq<Appointment>, k: nat, h: nat)
    requires h < 100
    requires k < |day| && Covers(day[k], h)
    requires forall j :: 0 <= j < k ==> !Covers(day[j], h)
    ensures AppointmentAt(day, SlotLabel(h)) == Some(day[k])
    ensures forall j :: k < j < |day| && day[j] != day[k] ==>
      AppointmentAt(day, SlotLabel(h)) != Some(day[j])
  {
    SlotLabelReadsBack(h);
    var r := AppointmentAt(day, SlotLabel(h));
    assert r.Some?;
    var m :| 0 <= m < |day| && day[m] == r.value && Covers(r.value, h)
      && forall j :: 0 <= j < m ==> !Covers(day[j], h);
    assert m == k;
  }

  lemma LoneDay(a: Appointment)
    ensures DoctorAppointments([a], a.doctorName, a.date) == [a]
  {
    assert [a][0] == a;
  }

  lemma LoneAppointmentSlot(a: Appointment, h: nat, i: nat)
    requires HourOf(a.time) == Some(h) && i < SlotCount
    ensures Timeline([a], a.doctorName, a.date)[i].occupant ==
      (if h <= FirstHour + i < h + CeilDiv(a.duration, 60) then Some(a) else None)
  {
    LoneDay(a);
    SlotLabelReadsBack(FirstHour + i);
  }

  /** A lone appointment of the doctor that day occupies exactly the slots
      whose hour lies in `[h, h + ceil(duration / 60))`, and no other. */
  lemma LoneAppointmentSlots(a: Appointment, h: nat)
    requires HourOf(a.time) == Some(h)
    ensures forall i :: 0 <= i < SlotCount ==>
      Timeline([a], a.doctorName, a.date)[i].occupant ==
        (if h <= FirstHour + i < h + CeilDiv(a.duration, 60) then Some(a) else None)
  {
    forall i | 0 <= i < SlotCount
      ensures Timeline([a], a.doctorName, a.date)[i].occupant ==
        (if h <= FirstHour + i < h + CeilDiv(a.duration, 60) then Some(a) else None)
    {
      LoneAppointmentSlot(a, h, i);
    }
  }

  /** A slot starts a block exactly when its occupant's time is the slot's own
      label; then the occupant starts on the hour of that slot. */
  lemma BlockStartIffTimeIsLabel(appointments: seq<Appointment>, doctor: string, date: string, i: nat)
    requires i < SlotCount
    ensures var s := Timeline(appointments, doctor, date)[i];
      (s.role.BlockStart? <==> s.occupant.Some? && s.occupant.value.time == SlotLabels()[i])
      && (s.role.Continuation? <==> s.occupant.Some? && s.occupant.value.time != SlotLabels()[i])
      && (s.role.BlockStart? ==> ClockOf(s.occupant.value.time) == Some((FirstHour + i, 0)))
  {
    var slotText := SlotLabels()[i];
    assert slotText == SlotLabel(FirstHour + i);
    SlotLabelReadsBack(FirstHour + i);
    assert Timeline(appointments, doctor, date)[i] == SlotAt(DoctorAppointments(appointments, doctor, date), slotText);
  }

  /** An appointment heads at most one block: two slots that start a block
      with the same appointment are the same slot. */
  lemma AtMostOneBlockStart(appointments: seq<Appointment>, doctor: string, date: string, i: nat, j: nat)
    requires i < SlotCount && j < SlotCount
    requires Timeline(appointments, doctor, date)[i].role.BlockStart?
    requires Timeline(appointments, doctor, date)[j].role.BlockStart?
    requires Timeline(appointments, doctor, date)[i].occupant == Timeline(appointments, doctor, date)[j].occupant
    ensures i == j
  {
    BlockStartIffTimeIsLabel(appointments, doctor, date, i);
    BlockStartIffTimeIsLabel(appointments, doctor, date, j);
  }

  /** An appointment whose minutes are not "00" never starts a block: it
      occupies slots as continuation only. */
  lemma OffHourStartHasNoBlock(appointments: seq<Appointment>, doctor: string, date: string, i: nat)
    requires i < SlotCount
    requires Timeline(appointments, doctor, date)[i].occupant.Some?
    requires ClockOf(Timeline(appointments, doctor, date)[i].occupant.value.time).Some?
    requires ClockOf(Timeline(appointments, doctor, date)[i].occupant.value.time).value.1 != 0
    ensures Timeline(appointments, doctor, date)[i].role == Continuation
  {
    SlotLabelReadsBack(FirstHour + i);
  }

  /** Read back as hours and minutes, the end label is start plus duration:
      the minutes are two digits below 60 and the hour is not wrapped. */
  lemma EndLabelReadsBack(hours: nat, minutes: nat, duration: nat)
    ensures var total := hours * 60 + minutes + duration;
      && ClockOf(EndLabel(hours, minutes, duration)) == Some((total / 60, total % 60))
      && total % 60 < 60
      && |Split(EndLabel(hours, minutes, duration), ':')[1]| == 2
      && (total / 60) * 60 + total % 60 == total
  {
    var total := hours * 60 + minutes + duration;
    assert EndLabel(hours, minutes, duration) == Pad2(total / 60) + ":" + Pad2(total % 60);
    PaddedClockReads(total / 60, total % 60);
    Pad2OfNat(total % 60);
  }

  /** Two padded numbers around a colon read back as those numbers. */
  lemma PaddedClockReads(x: nat, y: nat)
    ensures Split(Pad2(x) + ":" + Pad2(y), ':') == [Pad2(x), Pad2(y)]
    ensures ClockOf(Pad2(x) + ":" + Pad2(y)) == Some((x, y))
  {
    var hh, mm := Pad2(x), Pad2(y);
    Pad2OfNat(x);
    Pad2OfNat(y);
    assert ':' !in hh && ':' !in mm by {
      assert forall c :: c in hh ==> IsDigit(c);
      assert forall c :: c in mm ==> IsDigit(c);
    }
    assert Join([hh, mm], ':') == hh + ":" + mm;
    SplitJoin([hh, mm], ':');
  }

  /** The height is the duration rounded up to a multiple of 15. */
  lemma BlockHeightRoundsUp(duration: int)
    ensures BlockHeight(duration) % 15 == 0
    ensures duration <= BlockHeight(duration) < duration + 15
  {
  }

  lemma FormatSlotLabel(h: nat)
    requires FirstHour <= h <= LastHour
    ensures FormatTime(SlotLabel(h)) == NatToString(if h > 12 then h - 12 else h) + ":00 " + (if h >= 12 then "PM" else "AM")
  {
    SlotLabelReadsBack(h);
  }

  /** For the slot hours, the 12-hour label ends in "PM" exactly from noon
      on, and its hour is the slot hour, less 12 after noon. */
  lemma FormatSlotTime(h: nat)
    requires FirstHour <= h <= LastHour
    ensures var f := FormatTime(SlotLabel(h));
      && (f[|f| - 2..] == "PM" <==> h >= 12)
      && (f[|f| - 2..] == "AM" <==> h < 12)
      && f[|f| - 6..|f| - 2] == ":00 "
      && HourOf(f) == Some(if h > 12 then h - 12 else h)
  {
    FormatSlotLabel(h);
    TwelveHourLabel(if h > 12 then h - 12 else h, if h >= 12 then "PM" else "AM");
  }

  /** "{d}:00 {suffix}" ends in the suffix after ":00 " and reads back as
      hour `d`. */
  lemma TwelveHourLabel(d: nat, suffix: string)
    requires |suffix| == 2
    ensures var f := NatToString(d) + ":00 " + suffix;
      && f[|f| - 2..] == suffix
      && f[|f| - 6..|f| - 2] == ":00 "
      && HourOf(f) == Some(d)
  {
    var f := NatToString(d) + ":00 " + suffix;
    DecimalOfNatToString(d);
    assert ':' !in NatToString(d) by {
      assert forall c :: c in NatToString(d) ==> IsDigit(c);
    }
    SplitAfterPiece(NatToString(d), ':', "00 " + suffix);
    assert f == NatToString(d) + [':'] + ("00 " + suffix);
  }

  lemma NineOClock()
    ensures SlotLabel(9) == "09:00"
    ensures HourOf("09:00") == Some(9) && ClockOf("09:00") == Some((9, 0))
  {
    SlotLabelReadsBack(9);
    Pad2Digits(9);
  }

  lemma NineOClockReads()
    ensures SlotLabels()[2] == SlotLabel(9) == "09:00"
    ensures SlotLabels()[3] == SlotLabel(10) == "10:00"
    ensures HourOf("09:00") == Some(9) && ClockOf("09:00") == Some((9, 0))
  {
    NineOClock();
    Pad2Digits(10);
  }

  lemma PadTenAndThirty()
    ensures Pad2(10) == "10" && Pad2(30) == "30"
  {
    Pad2Digits(10);
    Pad2Digits(30);
    assert DigitChar(1) == '1' && DigitChar(3) == '3' && DigitChar(0) == '0';
  }

  lemma EndOfNineForNinety()
    ensures EndLabel(9, 0, 90) == "10:30"
  {
    PadTenAndThirty();
    HalfPastTenRem();
    assert 9 * 60 + 0 + 90 == 630 && 630 / 60 == 10;
  }

  lemma HalfPastTenRem()
    ensures JsRem(630, 60) == 30
  {
    assert 630 % 60 == 30;
  }

  lemma NinetyMinutesFromNine()
    ensures EndLabelOf("09:00", 90) == "10:30" && BlockHeight(90) == 90
  {
    NineOClock();
    EndOfNineForNinety();
    assert CeilDiv(90, 15) == 6;
  }

  /** 09:00 for 90 minutes: block at 09:00 ending "10:30", continuation at
      10:00, 11:00 available. */
  lemma NineOClockForNinety(a: Appointment)
    requires a.time == "09:00" && a.duration == 90
    ensures var t := Timeline([a], a.doctorName, a.date);
      && t[2].occupant == Some(a) && t[2].role == BlockStart(90, "10:30")
      && t[3].occupant == Some(a) && t[3].role == Continuation
      && t[4].occupant == None && t[4].role == Available
  {
    NineOClockReads();
    NinetyMinutesFromNine();
    LoneAppointmentSlot(a, 9, 2);
    LoneAppointmentSlot(a, 9, 3);
    LoneAppointmentSlot(a, 9, 4);
  }

  /** 09:30 occupies the 09:00 slot, but only as continuation: no slot starts
      its block. */
  lemma HalfPastHasNoBlockStart(a: Appointment)
    requires a.time == "09:30" && a.duration == 45
    ensures var t := Timeline([a], a.doctorName, a.date);
      && t[2].occupant == Some(a) && t[2].role == Continuation
      && forall i :: 0 <= i < SlotCount ==> !t[i].role.BlockStart?
  {
    var t := Timeline([a], a.doctorName, a.date);
    HalfPastNineReads();
    LoneAppointmentSlot(a, 9, 2);
    forall i | 0 <= i < SlotCount ensures !t[i].role.BlockStart? {
      HalfPastStartsNoSlot(a, i);
    }
    BlockStartIffTimeIsLabel([a], a.doctorName, a.date, 2);
  }

  /** A time with minute "30" is no slot label, so it starts no block. */
  lemma HalfPastStartsNoSlot(a: Appointment, i: nat)
    requires a.time == "09:30" && i < SlotCount
    ensures !Timeline([a], a.doctorName, a.date)[i].role.BlockStart?
  {
    BlockStartIffTimeIsLabel([a], a.doctorName, a.date, i);
    SlotLabelAt(i);
    LabelMinutesZero(FirstHour + i);
    assert a.time[3] == '3';
  }

  lemma HalfPastNineReads()
    ensures HourOf("09:30") == Some(9)
  {
    assert Split("09:30", ':') == ["09", "30"] by {
      assert Join(["09", "30"], ':') == "09:30";
      SplitJoin(["09", "30"], ':');
    }
    Pad2Digits(9);
    Pad2OfNat(9);
  }

  lemma LabelMinutesZero(h: nat)
    requires h < 100
    ensures |SlotLabel(h)| == 5 && SlotLabel(h)[3] == '0'
  {
    Pad2OfNat(h);
  }
}
