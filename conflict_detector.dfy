/** `detect_time_conflict` of the service backend
    (backend/utils/conflict_detector.py): does a new appointment, widened by
    a buffer on both sides, overlap an existing one of the same doctor on
    the same day?  Times are minutes of the day read by `parse_time`, which
    is `strptime(t, "%H:%M")`; a time it cannot read raises, modelled as
    `Err`. */
module ConflictDetector {
  import opened Wrappers
  import opened Text
  import opened Seqs
  import opened PyTime
  import opened Models

  const DefaultBuffer := 5

  /** `exclude_id and apt.id == exclude_id`: an empty id excludes nothing. */
  predicate Excludes(excludeId: Option<string>, id: string) {
    excludeId.Some? && excludeId.value != "" && id == excludeId.value
  }

  /** The three `continue` guards of the loop. */
  predicate Skipped(a: Appointment, doctorName: string, date: string, excludeId: Option<string>) {
    Excludes(excludeId, a.id) || a.doctorName != doctorName || a.date != date || a.status == "Cancelled"
  }

  /** Both ranges widened by `b` minutes on each side, then the half-open
      overlap test. */
  predicate BufferedOverlap(newStart: int, newEnd: int, start: int, end: int, b: int) {
    newStart - b < end + b && newEnd + b > start - b
  }

  function TimeFormatError(t: string): string {
    "time data '" + t + "' does not match format '%H:%M'"
  }

  /** Existing appointment `a` is a conflict: not skipped, its time reads,
      and the buffered ranges overlap. */
  predicate Hits(a: Appointment, doctorName: string, date: string, excludeId: Option<string>,
                 newStart: int, newEnd: int, b: int) {
    !Skipped(a, doctorName, date, excludeId) && Strptime(a.time).Some?
    && BufferedOverlap(newStart, newEnd, Strptime(a.time).value, Strptime(a.time).value + a.duration, b)
  }

  /** The loop over `existing_appointments`, front to back: the first
      appointment that is not skipped and whose time does not read raises,
      the first that overlaps answers true. */
  function Scan(existing: seq<Appointment>, doctorName: string, date: string, excludeId: Option<string>,
                newStart: int, newEnd: int, b: int): Result<bool>
    decreases |existing|
  {
    if existing == [] then Ok(false)
    else
      var a := existing[0];
      if Skipped(a, doctorName, date, excludeId) then
        Scan(existing[1..], doctorName, date, excludeId, newStart, newEnd, b)
      else
        match Strptime(a.time)
        case None => Err(TimeFormatError(a.time))
        case Some(start) =>
          if BufferedOverlap(newStart, newEnd, start, start + a.duration, b) then Ok(true)
          else Scan(existing[1..], doctorName, date, excludeId, newStart, newEnd, b)
  }

  /** The answer once the new time has been read, or has failed to read. */
  function DetectionAfterParse(parsed: Option<nat>, newDate: string, newTime: string, newDuration: int, doctorName: string,
                               existing: seq<Appointment>, excludeId: Option<string>, b: int): Result<bool>
  {
    match parsed
    case None => Err(TimeFormatError(newTime))
    case Some(start) => Scan(existing, doctorName, newDate, excludeId, start, start + newDuration, b)
  }

  /** What `detect_time_conflict` returns or raises. */
  function Detection(newDate: string, newTime: string, newDuration: int, doctorName: string,
                     existing: seq<Appointment>, excludeId: Option<string>, b: int): Result<bool>
  {
    DetectionAfterParse(Strptime(newTime), newDate, newTime, newDuration, doctorName, existing, excludeId, b)
  }

  method DetectTimeConflict(newDate: string, newTime: string, newDuration: int, doctorName: string,
                            existing: seq<Appointment>, excludeId: Option<string>, bufferMinutes: int)
    returns (r: Result<bool>)
    ensures r == Detection(newDate, newTime, newDuration, doctorName, existing, excludeId, bufferMinutes)
  {
    var parsed := Strptime(newTime);
    if parsed.None? {
      return Err(TimeFormatError(newTime));
    }
    var newStart := parsed.value;
    var newEnd := newStart + newDuration;
    var newStartWithBuffer := newStart - bufferMinutes;
    var newEndWithBuffer := newEnd + bufferMinutes;
    var i := 0;
    while i < |existing|
      invariant 0 <= i <= |existing|
      invariant Scan(existing[i..], doctorName, newDate, excludeId, newStart, newEnd, bufferMinutes)
             == Scan(existing, doctorName, newDate, excludeId, newStart, newEnd, bufferMinutes)
    {
      var apt := existing[i];
      assert existing[i..][1..] == existing[i + 1..];
      if Excludes(excludeId, apt.id) {
        i := i + 1;
        continue;
      }
      if apt.doctorName != doctorName || apt.date != newDate {
        i := i + 1;
        continue;
      }
      if apt.status == "Cancelled" {
        i := i + 1;
        continue;
      }
      var existingStart := Strptime(apt.time);
      if existingStart.None? {
        return Err(TimeFormatError(apt.time));
      }
      var existingEnd := existingStart.value + apt.duration;
      var existingStartWithBuffer := existingStart.value - bufferMinutes;
      var existingEndWithBuffer := existingEnd + bufferMinutes;
      if newStartWithBuffer < existingEndWithBuffer && newEndWithBuffer > existingStartWithBuffer {
        return Ok(true);
      }
      i := i + 1;
    }
    return Ok(false);
  }

  // ---------------------------------------------------------------------
  // Properties

  /** When every appointment the loop looks at has a readable time, the scan
      does not raise, and it answers true exactly when some appointment is a
      conflict. */
  lemma {:induction false} ScanFindsHits(existing: seq<Appointment>, doctorName: string, date: string,
                                         excludeId: Option<string>, newStart: int, newEnd: int, b: int)
    requires forall i :: 0 <= i < |existing| && !Skipped(existing[i], doctorName, date, excludeId)
               ==> Strptime(existing[i].time).Some?
    ensures Scan(existing, doctorName, date, excludeId, newStart, newEnd, b)
         == Ok(exists i :: 0 <= i < |existing| && Hits(existing[i], doctorName, date, excludeId, newStart, newEnd, b))
    decreases |existing|
  {
    if existing != [] {
      var rest := existing[1..];
      ScanFindsHits(rest, doctorName, date, excludeId, newStart, newEnd, b);
      if exists i :: 0 <= i < |rest| && Hits(rest[i], doctorName, date, excludeId, newStart, newEnd, b) {
        var i :| 0 <= i < |rest| && Hits(rest[i], doctorName, date, excludeId, newStart, newEnd, b);
        assert existing[i + 1] == rest[i];
      }
      if exists i :: 0 <= i < |existing| && Hits(existing[i], doctorName, date, excludeId, newStart, newEnd, b) {
        var i :| 0 <= i < |existing| && Hits(existing[i], doctorName, date, excludeId, newStart, newEnd, b);
        if i > 0 {
          assert rest[i - 1] == existing[i];
        }
      }
    }
  }

  /** For validated appointments (every time matches `HH:MM` in range) the
      detector never raises, and it reports a conflict exactly when some
      existing appointment is a conflict. */
  lemma DetectionOfValidTimes(newDate: string, newTime: string, newDuration: int, doctorName: string,
                              existing: seq<Appointment>, excludeId: Option<string>, b: int)
    requires ValidTime(newTime)
    requires forall i :: 0 <= i < |existing| ==> ValidTime(existing[i].time)
    ensures Detection(newDate, newTime, newDuration, doctorName, existing, excludeId, b)
         == Ok(exists i :: 0 <= i < |existing| &&
                 Hits(existing[i], doctorName, newDate, excludeId, TimeMinutes(newTime), TimeMinutes(newTime) + newDuration, b))
  {
    forall i | 0 <= i < |existing| ensures Strptime(existing[i].time).Some? {
      var _ := TimeMinutes(existing[i].time);
    }
    var start := TimeMinutes(newTime);
    ScanFindsHits(existing, doctorName, newDate, excludeId, start, start + newDuration, b);
  }

  /** Two lists with the same first appointment whose tails scan alike scan
      alike. */
  lemma ScanSameHead(x: seq<Appointment>, y: seq<Appointment>, doctorName: string, date: string,
                     excludeId: Option<string>, newStart: int, newEnd: int, b: int)
    requires x != [] && y != [] && x[0] == y[0]
    requires Scan(x[1..], doctorName, date, excludeId, newStart, newEnd, b)
          == Scan(y[1..], doctorName, date, excludeId, newStart, newEnd, b)
    ensures Scan(x, doctorName, date, excludeId, newStart, newEnd, b)
         == Scan(y, doctorName, date, excludeId, newStart, newEnd, b)
  {
  }

  /** Dropping appointments the loop would skip anyway changes nothing. */
  lemma {:induction false} SkippedDoNotMatter(p: Appointment -> bool, existing: seq<Appointment>, doctorName: string,
                                              date: string, excludeId: Option<string>, newStart: int, newEnd: int, b: int)
    requires forall i :: 0 <= i < |existing| && !p(existing[i]) ==> Skipped(existing[i], doctorName, date, excludeId)
    ensures Scan(Filter(p, existing), doctorName, date, excludeId, newStart, newEnd, b)
         == Scan(existing, doctorName, date, excludeId, newStart, newEnd, b)
    decreases |existing|
  {
    if existing != [] {
      var a, rest := existing[0], existing[1..];
      assert forall i :: 0 <= i < |rest| ==> rest[i] == existing[i + 1];
      SkippedDoNotMatter(p, rest, doctorName, date, excludeId, newStart, newEnd, b);
      if p(a) {
        var kept := [a] + Filter(p, rest);
        assert Filter(p, existing) == kept;
        assert kept[0] == a && kept[1..] == Filter(p, rest);
        ScanSameHead(kept, existing, doctorName, date, excludeId, newStart, newEnd, b);
      } else {
        assert Filter(p, existing) == Filter(p, rest);
      }
    }
  }

  /** Two lists that scan alike from the parsed start give the same
      answer. */
  lemma SameScanSameDetection(parsed: Option<nat>, newDate: string, newTime: string, newDuration: int, doctorName: string,
                              x: seq<Appointment>, y: seq<Appointment>, excludeId: Option<string>, b: int)
    requires parsed.Some? ==>
      Scan(x, doctorName, newDate, excludeId, parsed.value, parsed.value + newDuration, b)
      == Scan(y, doctorName, newDate, excludeId, parsed.value, parsed.value + newDuration, b)
    ensures DetectionAfterParse(parsed, newDate, newTime, newDuration, doctorName, x, excludeId, b)
         == DetectionAfterParse(parsed, newDate, newTime, newDuration, doctorName, y, excludeId, b)
  {
  }

  /** Dropping appointments the loop would skip leaves the detector's
      answer as it was, whether or not the new time reads. */
  lemma DetectionIgnoresSkipped(p: Appointment -> bool, newDate: string, newTime: string, newDuration: int,
                                doctorName: string, existing: seq<Appointment>, excludeId: Option<string>, b: int)
    requires forall i :: 0 <= i < |existing| && !p(existing[i]) ==> Skipped(existing[i], doctorName, newDate, excludeId)
    ensures Detection(newDate, newTime, newDuration, doctorName, Filter(p, existing), excludeId, b)
         == Detection(newDate, newTime, newDuration, doctorName, existing, excludeId, b)
  {
    forall start: int, end: int
      ensures Scan(Filter(p, existing), doctorName, newDate, excludeId, start, end, b)
           == Scan(existing, doctorName, newDate, excludeId, start, end, b)
    {
      SkippedDoNotMatter(p, existing, doctorName, newDate, excludeId, start, end, b);
    }
    var parsed := Strptime(newTime);
    SameScanSameDetection(parsed, newDate, newTime, newDuration, doctorName, Filter(p, existing), existing, excludeId, b);
  }

  function NotCancelled(): Appointment -> bool {
    (a: Appointment) => a.status != "Cancelled"
  }

  /** Cancelled appointments never cause a conflict: removing all of them
      leaves the answer as it was. */
  lemma CancelledNeverConflict(newDate: string, newTime: string, newDuration: int, doctorName: string,
                               existing: seq<Appointment>, excludeId: Option<string>, b: int)
    ensures Detection(newDate, newTime, newDuration, doctorName, Filter(NotCancelled(), existing), excludeId, b)
         == Detection(newDate, newTime, newDuration, doctorName, existing, excludeId, b)
  {
    var p := NotCancelled();
    assert forall i :: 0 <= i < |existing| && !p(existing[i]) ==> Skipped(existing[i], doctorName, newDate, excludeId);
    DetectionIgnoresSkipped(p, newDate, newTime, newDuration, doctorName, existing, excludeId, b);
  }

  function NotExcluded(excludeId: Option<string>): Appointment -> bool {
    (a: Appointment) => !Excludes(excludeId, a.id)
  }

  /** The appointment being updated is ignored: removing every appointment
      with the excluded id leaves the answer as it was. */
  lemma ExcludedIsIgnored(newDate: string, newTime: string, newDuration: int, doctorName: string,
                          existing: seq<Appointment>, excludeId: Option<string>, b: int)
    ensures Detection(newDate, newTime, newDuration, doctorName, Filter(NotExcluded(excludeId), existing), excludeId, b)
         == Detection(newDate, newTime, newDuration, doctorName, existing, excludeId, b)
  {
    var p := NotExcluded(excludeId);
    assert forall i :: 0 <= i < |existing| && !p(existing[i]) ==> Skipped(existing[i], doctorName, newDate, excludeId);
    DetectionIgnoresSkipped(p, newDate, newTime, newDuration, doctorName, existing, excludeId, b);
  }

  /** No appointment of the same doctor on the same day (in particular, no
      appointments at all): no conflict, once the new time reads. */
  lemma {:induction false} NothingToCompare(newDate: string, newTime: string, newDuration: int, doctorName: string,
                                            existing: seq<Appointment>, excludeId: Option<string>, b: int)
    requires Strptime(newTime).Some?
    requires forall i :: 0 <= i < |existing| ==> existing[i].doctorName != doctorName || existing[i].date != newDate
    ensures Detection(newDate, newTime, newDuration, doctorName, existing, excludeId, b) == Ok(false)
  {
    var start := Strptime(newTime).value;
    ScanFindsHits(existing, doctorName, newDate, excludeId, start, start + newDuration, b);
  }

  /** With buffer `b` on both ranges, the test is the plain overlap test with
      a gap of `2 * b` required. */
  lemma BufferDoubles(newStart: int, newEnd: int, start: int, end: int, b: int)
    ensures BufferedOverlap(newStart, newEnd, start, end, b) <==> newStart < end + 2 * b && newEnd > start - 2 * b
  {
  }

  function Booked(id: string, time: string, duration: int): Appointment {
    Appointment(id, "Rajesh Kumar", "2025-12-28", time, duration, "Dr. Sarah Johnson", "Confirmed", "In-person", "")
  }

  /** Against one appointment that the loop does not skip, the answer is
      the buffered overlap test of the two ranges. */
  lemma AgainstOne(date: string, newTime: string, newDuration: int, doctorName: string, x: Appointment, b: int)
    requires ValidTime(newTime) && ValidTime(x.time)
    requires !Skipped(x, doctorName, date, None)
    ensures Detection(date, newTime, newDuration, doctorName, [x], None, b)
         == Ok(BufferedOverlap(TimeMinutes(newTime), TimeMinutes(newTime) + newDuration,
                               TimeMinutes(x.time), TimeMinutes(x.time) + x.duration, b))
  {
    var start, other := TimeMinutes(newTime), TimeMinutes(x.time);
    assert Strptime(newTime) == Some(start) && Strptime(x.time) == Some(other);
    assert [x][0] == x && [x][1..] == [];
    assert Scan([x][1..], doctorName, date, None, start, start + newDuration, b) == Ok(false);
  }

  lemma NineOClock()
    ensures ValidTime("09:00") && TimeMinutes("09:00") == 540
  {
    PaddedClockIsValid(9, 0);
    assert Pad2(9) + ":" + Pad2(0) == "09:00";
  }

  /** A new booking against one stored booking from 09:00 to 09:30. */
  lemma AgainstNineOClock(h: nat, m: nat, duration: int, b: int)
    requires h <= 23 && m <= 59
    ensures Detection("2025-12-28", Pad2(h) + ":" + Pad2(m), duration, "Dr. Sarah Johnson", [Booked("1", "09:00", 30)], None, b)
         == Ok(BufferedOverlap(h * 60 + m, h * 60 + m + duration, 540, 570, b))
  {
    PaddedClockIsValid(h, m);
    NineOClock();
    AgainstOne("2025-12-28", Pad2(h) + ":" + Pad2(m), duration, "Dr. Sarah Johnson", Booked("1", "09:00", 30), b);
  }

  lemma NineThirtyNine()
    ensures Detection("2025-12-28", "09:39", 30, "Dr. Sarah Johnson", [Booked("1", "09:00", 30)], None, DefaultBuffer) == Ok(true)
  {
    AgainstNineOClock(9, 39, 30, DefaultBuffer);
    assert Pad2(9) + ":" + Pad2(39) == "09:39";
  }

  lemma NineForty()
    ensures Detection("2025-12-28", "09:40", 30, "Dr. Sarah Johnson", [Booked("1", "09:00", 30)], None, DefaultBuffer) == Ok(false)
  {
    AgainstNineOClock(9, 40, 30, DefaultBuffer);
    assert Pad2(9) + ":" + Pad2(40) == "09:40";
  }

  /** With the default 5-minute buffer, a booking from 09:00 to 09:30 blocks
      a start at 09:39 (a 9-minute gap) but not at 09:40 (a 10-minute gap). */
  lemma DefaultBufferGap()
    ensures Detection("2025-12-28", "09:39", 30, "Dr. Sarah Johnson", [Booked("1", "09:00", 30)], None, DefaultBuffer) == Ok(true)
    ensures Detection("2025-12-28", "09:40", 30, "Dr. Sarah Johnson", [Booked("1", "09:00", 30)], None, DefaultBuffer) == Ok(false)
  {
    NineThirtyNine();
    NineForty();
  }

  /** The answer does not depend on which of two validated, non-cancelled
      appointments of the same doctor and day is the new one. */
  lemma ConflictIsSymmetric(x: Appointment, y: Appointment, b: int)
    requires ValidTime(x.time) && ValidTime(y.time)
    requires x.doctorName == y.doctorName && x.date == y.date
    requires x.status != "Cancelled" && y.status != "Cancelled"
    ensures Detection(x.date, x.time, x.duration, x.doctorName, [y], None, b)
         == Detection(y.date, y.time, y.duration, y.doctorName, [x], None, b)
  {
    DetectionOfValidTimes(x.date, x.time, x.duration, x.doctorName, [y], None, b);
    DetectionOfValidTimes(y.date, y.time, y.duration, y.doctorName, [x], None, b);
  }
}
