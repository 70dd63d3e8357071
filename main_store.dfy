/** The in-memory store of the GraphQL backend (backend/main.py): the
    module-level list `appointments_db`, the conflict check
    `check_time_conflict`, the queries `appointments` and `appointment`, the
    mutations `createAppointment`, `updateAppointment` and
    `deleteAppointment`, and the status counts of the root endpoint.  An
    exception raised by a mutation is `Err` with its message, and the list is
    then as it was. */
module MainStore {
  import opened Wrappers
  import opened Text
  import opened Seqs
  import opened PyTime
  import opened Records
  import ConflictDetector

  // ---------------------------------------------------------------------
  // Conflict check

  /** The overlap test `(new_start < existing_end) and (new_end > existing_start)`. */
  predicate Overlap(newStart: int, newEnd: int, start: int, end: int) {
    newStart < end && newEnd > start
  }

  /** `(existing_start, existing_end)` of a stored record in minutes: None
      when strptime cannot read its time or adding its duration overflows
      `datetime`. */
  function Span(a: Appointment): Option<(int, int)> {
    match Strptime(a.time)
    case None => None
    case Some(start) =>
      match AddMinutes(start, a.duration)
      case None => None
      case Some(end) => Some((start, end))
  }

  /** The loop of `check_time_conflict` over the records, front to back.
      Cancelled records are not skipped, and a stored record whose span
      raises (a time strptime cannot read, an end outside the range of
      `datetime`) makes the whole check answer false: the `except` catches
      the error. */
  function ConflictFrom(records: seq<Appointment>, doctorName: string, date: string, excludeId: Option<string>,
                        newStart: int, newEnd: int): bool
    decreases |records|
  {
    if records == [] then false
    else
      var a := records[0];
      if a.doctorName == doctorName && a.date == date && !ConflictDetector.Excludes(excludeId, a.id) then
        match Span(a)
        case None => false
        case Some((start, end)) =>
          if Overlap(newStart, newEnd, start, end) then true
          else ConflictFrom(records[1..], doctorName, date, excludeId, newStart, newEnd)
      else ConflictFrom(records[1..], doctorName, date, excludeId, newStart, newEnd)
  }

  /** What `check_time_conflict` returns: false when the new time does not
      read or its end overflows, otherwise the loop's answer. */
  function TimeConflict(records: seq<Appointment>, doctorName: string, date: string, time: string,
                        duration: int, excludeId: Option<string>): bool
  {
    match Strptime(time)
    case None => false
    case Some(start) =>
      match AddMinutes(start, duration)
      case None => false
      case Some(end) => ConflictFrom(records, doctorName, date, excludeId, start, end)
  }

  /** Record `a` blocks the new booking: same doctor and day, not the
      excluded one, a span that does not raise, and overlapping minutes. */
  predicate Blocks(a: Appointment, doctorName: string, date: string, excludeId: Option<string>, newStart: int, newEnd: int) {
    a.doctorName == doctorName && a.date == date && !ConflictDetector.Excludes(excludeId, a.id)
    && Span(a).Some? && Overlap(newStart, newEnd, Span(a).value.0, Span(a).value.1)
  }

  /** When no record of that doctor and day raises, the check answers true
      exactly when some record blocks the booking. */
  lemma {:induction false} ConflictIffBlocked(records: seq<Appointment>, doctorName: string, date: string,
                                              excludeId: Option<string>, newStart: int, newEnd: int)
    requires forall i :: 0 <= i < |records| && records[i].doctorName == doctorName && records[i].date == date
               ==> Span(records[i]).Some?
    ensures ConflictFrom(records, doctorName, date, excludeId, newStart, newEnd)
        <==> exists i :: 0 <= i < |records| && Blocks(records[i], doctorName, date, excludeId, newStart, newEnd)
    decreases |records|
  {
    if records != [] {
      var rest := records[1..];
      ConflictIffBlocked(rest, doctorName, date, excludeId, newStart, newEnd);
      if exists i :: 0 <= i < |rest| && Blocks(rest[i], doctorName, date, excludeId, newStart, newEnd) {
        var i :| 0 <= i < |rest| && Blocks(rest[i], doctorName, date, excludeId, newStart, newEnd);
        assert records[i + 1] == rest[i];
      }
      if exists i :: 0 <= i < |records| && Blocks(records[i], doctorName, date, excludeId, newStart, newEnd) {
        var i :| 0 <= i < |records| && Blocks(records[i], doctorName, date, excludeId, newStart, newEnd);
        if i > 0 {
          assert rest[i - 1] == records[i];
        }
      }
    }
  }

  function Booking(id: string, time: string, duration: int, status: string): Appointment {
    Appointment(id, "Rajesh Kumar", "2025-12-29", time, duration, "Dr. Sarah Johnson", status, "In-person")
  }

  lemma NineOClockParses()
    ensures Strptime("09:00") == Some(540)
    ensures Strptime("09:30") == Some(570)
  {
    StrptimeOfPaddedClock(9, 0);
    assert Pad2(9) + ":" + Pad2(0) == "09:00";
    StrptimeOfPaddedClock(9, 30);
    assert Pad2(9) + ":" + Pad2(30) == "09:30";
  }

  /** Back to back is not a conflict: 09:30 after 09:00 for 30 minutes. */
  lemma BackToBackIsFree()
    ensures !TimeConflict([Booking("1", "09:00", 30, "Scheduled")], "Dr. Sarah Johnson", "2025-12-29", "09:30", 30, None)
  {
    NineOClockParses();
  }

  /** A cancelled booking still blocks its time. */
  lemma CancelledStillBlocks()
    ensures TimeConflict([Booking("5", "09:00", 30, "Cancelled")], "Dr. Sarah Johnson", "2025-12-29", "09:00", 30, None)
  {
    NineOClockParses();
  }

  /** A stored time strptime cannot read ends the check with false, so a
      conflicting booking after it goes unreported. */
  lemma UnreadableTimeHidesLaterConflict()
    ensures !TimeConflict([Booking("1", "9.00", 30, "Scheduled"), Booking("2", "09:00", 30, "Scheduled")],
                          "Dr. Sarah Johnson", "2025-12-29", "09:00", 30, None)
  {
    NineOClockParses();
    assert Split("9.00", ':') == ["9.00"] by {
      SplitNoSep("9.00", ':');
    }
  }

  /** A stored record whose end falls before year 1 raises OverflowError,
      which ends the check with false, so the conflicting record after it
      goes unreported even though it blocks the booking. */
  lemma OverflowHidesLaterConflict()
    ensures !TimeConflict([Booking("1", "09:00", -1000000000, "Scheduled"), Booking("2", "09:00", 30, "Scheduled")],
                          "Dr. Sarah Johnson", "2025-12-29", "09:00", 30, None)
    ensures Blocks(Booking("2", "09:00", 30, "Scheduled"), "Dr. Sarah Johnson", "2025-12-29", None, 540, 570)
  {
    NineOClockParses();
  }

  // ---------------------------------------------------------------------
  // Query filters

  /** `date` is compared exactly, `status` and `doctorName` without case. */
  predicate MatchesQuery(a: Appointment, date: Option<string>, status: Option<string>, doctorName: Option<string>) {
    (!Given(date) || a.date == date.value)
    && (!Given(status) || Lower(a.status) == Lower(status.value))
    && (!Given(doctorName) || Lower(a.doctorName) == Lower(doctorName.value))
  }

  function QueryPredicate(date: Option<string>, status: Option<string>, doctorName: Option<string>): Appointment -> bool {
    (a: Appointment) => MatchesQuery(a, date, status, doctorName)
  }

  function DateIs(date: string): Appointment -> bool {
    (a: Appointment) => a.date == date
  }

  function StatusIs(status: string): Appointment -> bool {
    (a: Appointment) => Lower(a.status) == Lower(status)
  }

  function DoctorIs(doctorName: string): Appointment -> bool {
    (a: Appointment) => Lower(a.doctorName) == Lower(doctorName)
  }

  function IdIs(id: string): Appointment -> bool {
    (a: Appointment) => a.id == id
  }

  function IdIsNot(id: string): Appointment -> bool {
    (a: Appointment) => a.id != id
  }

  /** With every filter absent or empty, the query returns every record in
      order. */
  lemma NoFilterReturnsAll(records: seq<Appointment>, date: Option<string>, status: Option<string>,
                           doctorName: Option<string>)
    requires !Given(date) && !Given(status) && !Given(doctorName)
    ensures Filter(QueryPredicate(date, status, doctorName), records) == records
  {
    FilterKeepsAll(QueryPredicate(date, status, doctorName), records);
  }

  /** The status filter ignores case. */
  lemma StatusFilterIgnoresCase(a: Appointment)
    requires a.status == "Scheduled"
    ensures MatchesQuery(a, None, Some("scheduled"), None)
    ensures MatchesQuery(a, None, Some("SCHEDULED"), None)
  {
    assert Lower(a.status) == "scheduled";
    assert Lower("SCHEDULED") == "scheduled";
  }

  // ---------------------------------------------------------------------
  // Ids

  /** `[int(a["id"]) for a in appointments_db]`: None when some id is not an
      integer. */
  function ParsedIds(records: seq<Appointment>): (r: Option<seq<int>>)
    ensures r.None? <==> exists i :: 0 <= i < |records| && ParseInt(records[i].id).None?
    ensures r.Some? ==> |r.value| == |records| && forall i :: 0 <= i < |records| ==> ParseInt(records[i].id) == Some(r.value[i])
    decreases |records|
  {
    if records == [] then Some([])
    else
      match ParseInt(records[0].id)
      case None => None
      case Some(v) =>
        match ParsedIds(records[1..])
        case None =>
          ghost var i :| 0 <= i < |records[1..]| && ParseInt(records[1..][i].id).None?;
          assert records[i + 1] == records[1..][i];
          None
        case Some(vs) =>
          assert forall i :: 1 <= i < |records| ==> records[i] == records[1..][i - 1];
          Some([v] + vs)
  }

  /** `max(xs)` of a non-empty list. */
  function Max(xs: seq<int>): (m: int)
    requires |xs| > 0
    ensures forall i :: 0 <= i < |xs| ==> xs[i] <= m
    ensures exists i :: 0 <= i < |xs| && xs[i] == m
  {
    if |xs| == 1 then xs[0]
    else
      var m := Max(xs[1..]);
      assert forall i :: 1 <= i < |xs| ==> xs[i] == xs[1..][i - 1];
      if xs[0] >= m then xs[0] else m
  }

  /** `str(max([int(a["id"]) ...]) + 1)`, or the error it raises. */
  function NextId(records: seq<Appointment>): Result<string> {
    match ParsedIds(records)
    case None => Err("invalid literal for int() with base 10")
    case Some(ids) =>
      if ids == [] then Err("max() arg is an empty sequence")
      else Ok(IntToString(Max(ids) + 1))
  }

  /** Id generation fails exactly on an empty list or a non-integer id. */
  lemma NextIdFails(records: seq<Appointment>)
    ensures NextId(records).Err? <==> records == [] || exists i :: 0 <= i < |records| && ParseInt(records[i].id).None?
  {
  }

  /** A generated id is new: it differs from every id in the list. */
  lemma NextIdIsFresh(records: seq<Appointment>)
    requires NextId(records).Ok?
    ensures forall i :: 0 <= i < |records| ==> records[i].id != NextId(records).value
  {
    var ids := ParsedIds(records).value;
    var m := Max(ids);
    ParseIntOfIntToString(m + 1);
    forall i | 0 <= i < |records| ensures records[i].id != NextId(records).value {
      assert ParseInt(records[i].id) == Some(ids[i]) && ids[i] <= m;
    }
  }

  /** The record `createAppointment` appends: the status defaults to
      "Scheduled" when the input leaves it empty. */
  function Created(id: string, input: AppointmentInput): (a: Appointment)
    ensures a.id == id
    ensures a.status == (if input.status == "" then "Scheduled" else input.status)
    ensures a.patientName == input.patientName && a.date == input.date && a.time == input.time
    ensures a.duration == input.duration && a.doctorName == input.doctorName && a.mode == input.mode
  {
    Appointment(id, input.patientName, input.date, input.time, input.duration, input.doctorName,
                if input.status == "" then "Scheduled" else input.status, input.mode)
  }

  /** The record `updateAppointment` writes: the status is taken as given,
      with no default. */
  function Replacement(id: string, input: AppointmentInput): (a: Appointment)
    ensures a.id == id && a.status == input.status
    ensures a.patientName == input.patientName && a.date == input.date && a.time == input.time
    ensures a.duration == input.duration && a.doctorName == input.doctorName && a.mode == input.mode
  {
    Appointment(id, input.patientName, input.date, input.time, input.duration, input.doctorName,
                input.status, input.mode)
  }

  function ConflictMessage(input: AppointmentInput): string {
    "Time conflict: " + input.doctorName + " already has an appointment at " + input.time + " on " + input.date
  }

  function UpdateConflictMessage(input: AppointmentInput): string {
    "Time conflict: " + input.doctorName + " already has an appointment at " + input.time
  }

  datatype DeleteResult = DeleteResult(success: bool, message: string)

  // ---------------------------------------------------------------------
  // Root endpoint counts

  datatype StatusCounts = StatusCounts(total: nat, scheduled: nat, confirmed: nat, completed: nat, cancelled: nat)

  function StatusIsExactly(status: string): Appointment -> bool {
    (a: Appointment) => a.status == status
  }

  predicate KnownStatus(s: string) {
    s == "Scheduled" || s == "Confirmed" || s == "Completed" || s == "Cancelled"
  }

  /** The `stats` block of `root()`: exact, case-sensitive status counts. */
  function RootStats(records: seq<Appointment>): (c: StatusCounts)
    ensures c.total == |records|
    ensures c.scheduled <= c.total && c.confirmed <= c.total && c.completed <= c.total && c.cancelled <= c.total
  {
    StatusCounts(
      |records|,
      |Filter(StatusIsExactly("Scheduled"), records)|,
      |Filter(StatusIsExactly("Confirmed"), records)|,
      |Filter(StatusIsExactly("Completed"), records)|,
      |Filter(StatusIsExactly("Cancelled"), records)|)
  }

  function KnownCount(records: seq<Appointment>): nat {
    var c := RootStats(records);
    c.scheduled + c.confirmed + c.completed + c.cancelled
  }

  /** The first record adds one to the four counts when its status is one of
      them, and nothing otherwise. */
  lemma KnownCountStep(records: seq<Appointment>)
    requires records != []
    ensures KnownCount(records) == KnownCount(records[1..]) + (if KnownStatus(records[0].status) then 1 else 0)
  {
    FilterStep(StatusIsExactly("Scheduled"), records);
    FilterStep(StatusIsExactly("Confirmed"), records);
    FilterStep(StatusIsExactly("Completed"), records);
    FilterStep(StatusIsExactly("Cancelled"), records);
  }

  lemma FilterStep(p: Appointment -> bool, s: seq<Appointment>)
    requires s != []
    ensures |Filter(p, s)| == |Filter(p, s[1..])| + (if p(s[0]) then 1 else 0)
  {
  }

  /** A count that grows by one for each counted status, taken one record
      further. */
  lemma CountStep(records: seq<Appointment>, c: nat, cRest: nat)
    requires records != []
    requires cRest <= |records[1..]|
    requires cRest == |records[1..]| <==> forall i :: 0 <= i < |records[1..]| ==> KnownStatus(records[1..][i].status)
    requires c == cRest + (if KnownStatus(records[0].status) then 1 else 0)
    ensures c <= |records|
    ensures c == |records| <==> forall i :: 0 <= i < |records| ==> KnownStatus(records[i].status)
  {
    var rest := records[1..];
    if forall i :: 0 <= i < |rest| ==> KnownStatus(rest[i].status) {
      assert forall i :: 1 <= i < |records| ==> records[i] == rest[i - 1];
    } else {
      var i :| 0 <= i < |rest| && !KnownStatus(rest[i].status);
      assert records[i + 1] == rest[i];
    }
  }

  /** The four counts never exceed the total, and add up to it exactly when
      every status is one of the four spelled as counted. */
  lemma {:induction false} StatusCountsAddUp(records: seq<Appointment>)
    ensures KnownCount(records) <= |records|
    ensures KnownCount(records) == |records| <==> forall i :: 0 <= i < |records| ==> KnownStatus(records[i].status)
    decreases |records|
  {
    if records != [] {
      StatusCountsAddUp(records[1..]);
      KnownCountStep(records);
      CountStep(records, KnownCount(records), KnownCount(records[1..]));
    }
  }

  // ---------------------------------------------------------------------
  // The store

  class Store {
    /** `appointments_db`. */
    var records: seq<Appointment>

    /** The module starts from the mock records it is given. */
    constructor(initial: seq<Appointment>)
      ensures records == initial
    {
      records := initial;
    }

    /** `check_time_conflict`. */
    method CheckTimeConflict(doctorName: string, date: string, time: string, duration: int, excludeId: Option<string>)
      returns (conflict: bool)
      ensures conflict == TimeConflict(records, doctorName, date, time, duration, excludeId)
    {
      var parsed := Strptime(time);
      if parsed.None? {
        return false;
      }
      var newStart := parsed.value;
      var ended := AddMinutes(newStart, duration);
      if ended.None? {
        return false;
      }
      var newEnd := ended.value;
      var i := 0;
      while i < |records|
        invariant 0 <= i <= |records|
        invariant ConflictFrom(records[i..], doctorName, date, excludeId, newStart, newEnd)
               == ConflictFrom(records, doctorName, date, excludeId, newStart, newEnd)
      {
        var apt := records[i];
        assert records[i..][1..] == records[i + 1..];
        if apt.doctorName == doctorName && apt.date == date {
          if ConflictDetector.Excludes(excludeId, apt.id) {
            i := i + 1;
            continue;
          }
          var existingStart := Strptime(apt.time);
          if existingStart.None? {
            return false;
          }
          var existingEnd := AddMinutes(existingStart.value, apt.duration);
          if existingEnd.None? {
            return false;
          }
          if newStart < existingEnd.value && newEnd > existingStart.value {
            return true;
          }
        }
        i := i + 1;
      }
      return false;
    }

    /** `Query.appointments`: the filters applied one after the other. */
    method Appointments(date: Option<string>, status: Option<string>, doctorName: Option<string>)
      returns (r: seq<Appointment>)
      ensures r == Filter(QueryPredicate(date, status, doctorName), records)
    {
      var afterDate := QueryPredicate(date, None, None);
      var afterStatus := QueryPredicate(date, status, None);
      var filtered := records;
      if Given(date) {
        filtered := Filter(DateIs(date.value), filtered);
        FilterExt(DateIs(date.value), afterDate, records);
      } else {
        FilterKeepsAll(afterDate, records);
      }
      if Given(status) {
        FilterFilter(afterDate, StatusIs(status.value), afterStatus, records);
        filtered := Filter(StatusIs(status.value), filtered);
      } else {
        FilterExt(afterDate, afterStatus, records);
      }
      if Given(doctorName) {
        FilterFilter(afterStatus, DoctorIs(doctorName.value), QueryPredicate(date, status, doctorName), records);
        filtered := Filter(DoctorIs(doctorName.value), filtered);
      } else {
        FilterExt(afterStatus, QueryPredicate(date, status, doctorName), records);
      }
      return filtered;
    }

    /** `Query.appointment`: the first record with the id, if any. */
    function AppointmentById(id: string): (r: Option<Appointment>)
      reads this
      ensures r.None? <==> forall i :: 0 <= i < |records| ==> records[i].id != id
      ensures r.Some? ==> exists k :: 0 <= k < |records| && records[k] == r.value && r.value.id == id
                            && forall j :: 0 <= j < k ==> records[j].id != id
    {
      match FirstIndex(IdIs(id), records)
      case None => None
      case Some(k) => Some(records[k])
    }

    /** `Mutation.createAppointment`. */
    method CreateAppointment(input: AppointmentInput) returns (r: Result<Appointment>)
      modifies this
      ensures NextId(old(records)).Err? ==> r == Err(NextId(old(records)).message) && records == old(records)
      ensures NextId(old(records)).Ok? ==>
        if TimeConflict(old(records), input.doctorName, input.date, input.time, input.duration, None)
        then r == Err(ConflictMessage(input)) && records == old(records)
        else r == Ok(Created(NextId(old(records)).value, input)) && records == old(records) + [r.value]
    {
      var newId := NextId(records);
      if newId.Err? {
        return Err(newId.message);
      }
      var conflict := CheckTimeConflict(input.doctorName, input.date, input.time, input.duration, None);
      if conflict {
        return Err(ConflictMessage(input));
      }
      var apt := Created(newId.value, input);
      records := records + [apt];
      return Ok(apt);
    }

    /** `Mutation.updateAppointment`: the first record with the id is
        replaced in place, checked for conflicts against all records but
        those with its own id. */
    method UpdateAppointment(id: string, input: AppointmentInput) returns (r: Result<Option<Appointment>>)
      modifies this
      ensures FirstIndex(IdIs(id), old(records)).None? ==> r == Ok(None) && records == old(records)
      ensures FirstIndex(IdIs(id), old(records)).Some? ==>
        var k := FirstIndex(IdIs(id), old(records)).value;
        if TimeConflict(old(records), input.doctorName, input.date, input.time, input.duration, Some(id))
        then r == Err(UpdateConflictMessage(input)) && records == old(records)
        else r == Ok(Some(Replacement(id, input))) && records == old(records)[k := Replacement(id, input)]
    {
      var i := 0;
      while i < |records|
        invariant 0 <= i <= |records|
        invariant records == old(records)
        invariant forall j :: 0 <= j < i ==> !IdIs(id)(records[j])
      {
        if records[i].id == id {
          var conflict := CheckTimeConflict(input.doctorName, input.date, input.time, input.duration, Some(id));
          if conflict {
            return Err(UpdateConflictMessage(input));
          }
          var apt := Replacement(id, input);
          records := records[i := apt];
          return Ok(Some(apt));
        }
        i := i + 1;
      }
      return Ok(None);
    }

    /** `Mutation.deleteAppointment`: every record with the id goes, the
        others stay in order; success means the list got shorter. */
    method DeleteAppointment(id: string) returns (result: DeleteResult)
      modifies this
      ensures records == Filter(IdIsNot(id), old(records))
      ensures result.success <==> exists i :: 0 <= i < |old(records)| && old(records)[i].id == id
      ensures result.message == if result.success then "Appointment deleted successfully" else "Appointment not found"
    {
      var originalLength := |records|;
      FilterShorter(IdIsNot(id), records);
      records := Filter(IdIsNot(id), records);
      if |records| < originalLength {
        return DeleteResult(true, "Appointment deleted successfully");
      }
      return DeleteResult(false, "Appointment not found");
    }
  }

  // ---------------------------------------------------------------------
  // What the mutations keep

  /** After a delete no record has the id, and every other record is still
      there. */
  lemma DeleteRemovesOnlyId(records: seq<Appointment>, id: string)
    ensures forall i :: 0 <= i < |Filter(IdIsNot(id), records)| ==> Filter(IdIsNot(id), records)[i].id != id
    ensures forall i :: 0 <= i < |records| && records[i].id != id ==> records[i] in Filter(IdIsNot(id), records)
    ensures IsSubsequence(Filter(IdIsNot(id), records), records)
  {
    FilterIsSubsequence(IdIsNot(id), records);
  }

  /** An update with a given id changes only the first record carrying it,
      keeps that record's id, and leaves the length as it was. */
  lemma UpdateKeepsOthers(records: seq<Appointment>, id: string, input: AppointmentInput)
    requires FirstIndex(IdIs(id), records).Some?
    ensures var k := FirstIndex(IdIs(id), records).value;
      var after := records[k := Replacement(id, input)];
      |after| == |records| && after[k].id == records[k].id
      && (forall j :: 0 <= j < |records| && j != k ==> after[j] == records[j])
      && (forall j :: 0 <= j < k ==> records[j].id != id)
  {
  }

  /** A created record gets an id no stored record has. */
  lemma CreatedIdIsNew(records: seq<Appointment>, input: AppointmentInput)
    requires NextId(records).Ok?
    ensures forall i :: 0 <= i < |records| ==> records[i].id != Created(NextId(records).value, input).id
  {
    NextIdIsFresh(records);
  }
}
