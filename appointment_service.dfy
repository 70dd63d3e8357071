/** `AppointmentService` of the service backend
    (backend/appointment_service.py): a dictionary from id to appointment,
    filtered and sorted on reading, checked for conflicts on creation, and
    updated and deleted by key.  A Python dict iterates in insertion order,
    so the store is the key order `keys` beside the map `values`; the uuid
    and `created_at` of a new appointment are parameters. */
module AppointmentService {
  import opened Wrappers
  import opened Text
  import opened Seqs
  import opened Models
  import opened ConflictDetector
  import opened ServiceSort

  // ---------------------------------------------------------------------
  // The dictionary as a list

  /** `list(d.values())`: the values in key order. */
  function InOrder(keys: seq<string>, values: map<string, Appointment>): seq<Appointment>
    requires forall i :: 0 <= i < |keys| ==> keys[i] in values
  {
    seq(|keys|, i requires 0 <= i < |keys| => values[keys[i]])
  }

  lemma InOrderCons(keys: seq<string>, values: map<string, Appointment>)
    requires keys != []
    requires forall i :: 0 <= i < |keys| ==> keys[i] in values
    ensures InOrder(keys, values) == [values[keys[0]]] + InOrder(keys[1..], values)
  {
  }

  /** Every listed appointment is a stored value and every stored value is
      listed. */
  lemma InOrderMembers(keys: seq<string>, values: map<string, Appointment>)
    requires forall k :: k in values <==> k in keys
    ensures forall x :: x in InOrder(keys, values) <==> exists k :: k in values && values[k] == x
  {
    var s := InOrder(keys, values);
    forall x | x in s ensures exists k :: k in values && values[k] == x {
      var i :| 0 <= i < |s| && s[i] == x;
      assert values[keys[i]] == x;
    }
    forall x | (exists k :: k in values && values[k] == x) ensures x in s {
      var k :| k in values && values[k] == x;
      var i :| 0 <= i < |keys| && keys[i] == k;
      assert s[i] == x;
    }
  }

  function KeyIsNot(id: string): string -> bool {
    (k: string) => k != id
  }

  function IdIsNot(id: string): Appointment -> bool {
    (a: Appointment) => a.id != id
  }

  /** Deleting a key from the dictionary deletes its appointment from the
      listing and keeps the others in their order. */
  lemma {:induction false} InOrderDelete(keys: seq<string>, values: map<string, Appointment>, id: string)
    requires forall i :: 0 <= i < |keys| ==> keys[i] in values && values[keys[i]].id == keys[i]
    ensures InOrder(Filter(KeyIsNot(id), keys), values - {id}) == Filter(IdIsNot(id), InOrder(keys, values))
    decreases |keys|
  {
    if keys != [] {
      var k, rest := keys[0], keys[1..];
      var left := values - {id};
      var kept := Filter(KeyIsNot(id), rest);
      assert forall i :: 0 <= i < |rest| ==> rest[i] == keys[i + 1];
      assert forall i :: 0 <= i < |kept| ==> kept[i] in rest && kept[i] != id;
      InOrderDelete(rest, values, id);
      InOrderCons(keys, values);
      var s := InOrder(keys, values);
      if k != id {
        assert Filter(KeyIsNot(id), keys) == [k] + kept;
        InOrderCons([k] + kept, left);
        assert ([k] + kept)[1..] == kept;
        assert Filter(IdIsNot(id), s) == [values[k]] + Filter(IdIsNot(id), InOrder(rest, values));
      } else {
        assert Filter(KeyIsNot(id), keys) == kept;
        assert Filter(IdIsNot(id), s) == Filter(IdIsNot(id), InOrder(rest, values));
      }
    }
  }

  /** Replacing the value of a present key replaces the one listing entry at
      that key's position. */
  lemma InOrderUpdate(keys: seq<string>, values: map<string, Appointment>, id: string, a: Appointment)
    requires NoDuplicates(keys) && id in keys
    requires forall i :: 0 <= i < |keys| ==> keys[i] in values
    ensures InOrder(keys, values[id := a]) == InOrder(keys, values)[IndexOf(keys, id) := a]
  {
    var k := IndexOf(keys, id);
    var r := InOrder(keys, values[id := a]);
    var s := InOrder(keys, values)[k := a];
    forall i | 0 <= i < |keys| ensures r[i] == s[i] {
      if i != k {
        assert keys[i] != id;
      }
    }
  }

  /** Storing a new key appends its appointment to the listing. */
  lemma InOrderAppend(keys: seq<string>, values: map<string, Appointment>, id: string, a: Appointment)
    requires id !in keys
    requires forall i :: 0 <= i < |keys| ==> keys[i] in values
    ensures InOrder(keys + [id], values[id := a]) == InOrder(keys, values) + [a]
  {
    var r := InOrder(keys + [id], values[id := a]);
    forall i | 0 <= i < |keys| ensures r[i] == InOrder(keys, values)[i] {
      assert (keys + [id])[i] == keys[i];
    }
  }

  /** Keys are listed once each, exactly the dictionary's, and every
      appointment is stored under its own id. */
  ghost predicate Consistent(keys: seq<string>, values: map<string, Appointment>) {
    NoDuplicates(keys)
    && (forall k :: k in values <==> k in keys)
    && (forall k :: k in values ==> values[k].id == k)
  }

  /** Deleting a key keeps the store consistent. */
  lemma DeleteConsistent(keys: seq<string>, values: map<string, Appointment>, id: string)
    requires Consistent(keys, values)
    ensures Consistent(Filter(KeyIsNot(id), keys), values - {id})
  {
    var kept := Filter(KeyIsNot(id), keys);
    FilterNoDuplicates(KeyIsNot(id), keys);
    assert forall k :: k in values - {id} <==> k in kept;
  }

  /** Deleting an absent key leaves the store as it was. */
  lemma DeleteAbsent(keys: seq<string>, values: map<string, Appointment>, id: string)
    requires Consistent(keys, values) && id !in values
    ensures Filter(KeyIsNot(id), keys) == keys && values - {id} == values
  {
    FilterKeepsAll(KeyIsNot(id), keys);
    assert values - {id} == values;
  }

  /** Storing an appointment under its own id keeps the store consistent;
      a new key is appended. */
  lemma StoreConsistent(keys: seq<string>, values: map<string, Appointment>, a: Appointment)
    requires Consistent(keys, values)
    ensures var ks := if a.id in keys then keys else keys + [a.id];
      Consistent(ks, values[a.id := a])
    ensures a.id !in keys ==> InOrder(keys + [a.id], values[a.id := a]) == InOrder(keys, values) + [a]
  {
    if a.id !in keys {
      InOrderAppend(keys, values, a.id, a);
    }
  }

  /** Changing the status of a stored appointment keeps the store
      consistent and changes only its listing entry. */
  lemma StatusConsistent(keys: seq<string>, values: map<string, Appointment>, id: string, status: string)
    requires Consistent(keys, values) && id in values
    ensures Consistent(keys, values[id := values[id].(status := status)])
    ensures InOrder(keys, values[id := values[id].(status := status)])
         == InOrder(keys, values)[IndexOf(keys, id) := values[id].(status := status)]
  {
    InOrderUpdate(keys, values, id, values[id].(status := status));
  }

  // ---------------------------------------------------------------------
  // Reading

  /** The filters of `get_appointments`; a filter that is None or empty is
      not applied, the others compare exactly. */
  predicate MatchesExactly(a: Appointment, date: Option<string>, status: Option<string>, doctorName: Option<string>) {
    (!Given(date) || a.date == date.value)
    && (!Given(status) || a.status == status.value)
    && (!Given(doctorName) || a.doctorName == doctorName.value)
  }

  function ExactQuery(date: Option<string>, status: Option<string>, doctorName: Option<string>): Appointment -> bool {
    (a: Appointment) => MatchesExactly(a, date, status, doctorName)
  }

  function DateEquals(date: string): Appointment -> bool {
    (a: Appointment) => a.date == date
  }

  function StatusEquals(status: string): Appointment -> bool {
    (a: Appointment) => a.status == status
  }

  function DoctorEquals(doctorName: string): Appointment -> bool {
    (a: Appointment) => a.doctorName == doctorName
  }

  /** The answer of `get_appointments` over listing `s`: the matching
      appointments, each as often as stored, in (date, time) order, with
      appointments of equal date and time in listing order. */
  lemma QueryResult(s: seq<Appointment>, date: Option<string>, status: Option<string>, doctorName: Option<string>)
    ensures Sorted(SortByKey(Filter(ExactQuery(date, status, doctorName), s)))
    ensures multiset(SortByKey(Filter(ExactQuery(date, status, doctorName), s)))
         == multiset(Filter(ExactQuery(date, status, doctorName), s))
    ensures forall x :: x in SortByKey(Filter(ExactQuery(date, status, doctorName), s))
                    <==> x in s && MatchesExactly(x, date, status, doctorName)
    ensures forall k :: Filter(HasKeyOf(k), SortByKey(Filter(ExactQuery(date, status, doctorName), s)))
                     == Filter(HasKeyOf(k), Filter(ExactQuery(date, status, doctorName), s))
  {
    var f := Filter(ExactQuery(date, status, doctorName), s);
    SortIsSorted(f);
    SortIsPermutation(f);
    SortKeepsMembers(f);
    forall k ensures Filter(HasKeyOf(k), SortByKey(f)) == Filter(HasKeyOf(k), f) {
      SortIsStable(f, k);
    }
  }

  /** The three `if ...: appointments = [apt for apt in appointments if
      ...]` steps: together, one filter by every supplied field. */
  method Matching(all: seq<Appointment>, date: Option<string>, status: Option<string>, doctorName: Option<string>)
    returns (appointments: seq<Appointment>)
    ensures appointments == Filter(ExactQuery(date, status, doctorName), all)
  {
    var afterDate := ExactQuery(date, None, None);
    var afterStatus := ExactQuery(date, status, None);
    appointments := all;
    if Given(date) {
      appointments := Filter(DateEquals(date.value), appointments);
      FilterExt(DateEquals(date.value), afterDate, all);
    } else {
      FilterKeepsAll(afterDate, all);
    }
    if Given(status) {
      FilterFilter(afterDate, StatusEquals(status.value), afterStatus, all);
      appointments := Filter(StatusEquals(status.value), appointments);
    } else {
      FilterExt(afterDate, afterStatus, all);
    }
    if Given(doctorName) {
      FilterFilter(afterStatus, DoctorEquals(doctorName.value), ExactQuery(date, status, doctorName), all);
      appointments := Filter(DoctorEquals(doctorName.value), appointments);
    } else {
      FilterExt(afterStatus, ExactQuery(date, status, doctorName), all);
    }
  }

  /** `appointments.sort(key=...)` on the freshly built result list. */
  method SortedCopy(s: seq<Appointment>) returns (r: seq<Appointment>)
    ensures r == SortByKey(s)
  {
    var arr := new Appointment[|s|](i requires 0 <= i < |s| => s[i]);
    assert arr[..] == s;
    SortInPlace(arr);
    r := arr[..];
  }

  // ---------------------------------------------------------------------
  // Creating

  /** A conflict among the listed appointments is a conflict with a stored
      value, and the other way round. */
  lemma HitsAmongValues(s: seq<Appointment>, values: map<string, Appointment>, a: Appointment, start: int)
    requires forall x :: x in s <==> exists k :: k in values && values[k] == x
    ensures (exists i :: 0 <= i < |s| && Hits(s[i], a.doctorName, a.date, None, start, start + a.duration, DefaultBuffer))
        <==> (exists k :: k in values && Hits(values[k], a.doctorName, a.date, None, start, start + a.duration, DefaultBuffer))
  {
    if exists i :: 0 <= i < |s| && Hits(s[i], a.doctorName, a.date, None, start, start + a.duration, DefaultBuffer) {
      var i :| 0 <= i < |s| && Hits(s[i], a.doctorName, a.date, None, start, start + a.duration, DefaultBuffer);
      assert s[i] in s;
    }
    if exists k :: k in values && Hits(values[k], a.doctorName, a.date, None, start, start + a.duration, DefaultBuffer) {
      var k :| k in values && Hits(values[k], a.doctorName, a.date, None, start, start + a.duration, DefaultBuffer);
      assert values[k] in s;
    }
  }

  /** The `Appointment(...)` that `create_appointment` builds: a missing
      status becomes "Scheduled". */
  function NewAppointment(data: AppointmentCreate, id: string, createdAt: string): Appointment {
    Appointment(id, data.patientName, data.date, data.time, data.duration, data.doctorName,
                StatusOrDefault(data.status), data.mode, createdAt)
  }

  /** Built from a valid `AppointmentCreate`, the appointment is valid,
      carries the given id and the input's fields, and its status is the
      input's or "Scheduled". */
  lemma NewAppointmentIsValid(data: AppointmentCreate, id: string, createdAt: string)
    requires ValidCreate(data)
    ensures ValidAppointment(NewAppointment(data, id, createdAt))
    ensures NewAppointment(data, id, createdAt).id == id
    ensures data.status.None? ==> NewAppointment(data, id, createdAt).status == DefaultStatus
    ensures data.status.Some? ==> NewAppointment(data, id, createdAt).status == data.status.value
  {
  }

  function ConflictError(data: AppointmentCreate): string {
    "Time conflict: " + data.doctorName + " already has an appointment at " + data.time + " on " + data.date
  }

  /** `_has_conflict`: the detector over every stored appointment with no
      exclusion and the default buffer. */
  predicate ConflictsIn(a: Appointment, existing: seq<Appointment>) {
    Detection(a.date, a.time, a.duration, a.doctorName, existing, None, DefaultBuffer) == Ok(true)
  }

  // ---------------------------------------------------------------------
  // The fifteen appointments the service starts with

  function Mock(patientName: string, date: string, time: string, duration: int, doctorName: string,
                status: string, mode: string): AppointmentCreate {
    AppointmentCreate(patientName, date, time, duration, doctorName, Some(status), mode)
  }

  function MockData(): (r: seq<AppointmentCreate>)
    ensures |r| == 15
  {
    [ Mock("Rajesh Kumar", "2025-12-28", "09:00", 30, "Dr. Sarah Johnson", "Confirmed", "In-person"),
      Mock("Priya Sharma", "2025-12-28", "09:30", 45, "Dr. Rajesh Verma", "Scheduled", "Video"),
      Mock("Amit Patel", "2025-12-28", "10:00", 30, "Dr. Sarah Johnson", "Upcoming", "In-person"),
      Mock("Sneha Reddy", "2025-12-28", "14:00", 60, "Dr. Anjali Desai", "Confirmed", "Phone"),
      Mock("Vikram Singh", "2025-12-29", "10:00", 30, "Dr. Sarah Johnson", "Scheduled", "In-person"),
      Mock("Ananya Iyer", "2025-12-29", "11:00", 45, "Dr. Rajesh Verma", "Confirmed", "Video"),
      Mock("Karan Malhotra", "2025-12-30", "09:00", 30, "Dr. Anjali Desai", "Scheduled", "In-person"),
      Mock("Deepika Nair", "2025-12-30", "15:00", 60, "Dr. Sarah Johnson", "Confirmed", "Video"),
      Mock("Arjun Chopra", "2025-12-31", "10:30", 45, "Dr. Rajesh Verma", "Scheduled", "Phone"),
      Mock("Meera Gupta", "2026-01-02", "09:00", 30, "Dr. Anjali Desai", "Scheduled", "In-person"),
      Mock("Rohit Sharma", "2025-12-26", "09:00", 30, "Dr. Sarah Johnson", "Completed", "In-person"),
      Mock("Kavya Menon", "2025-12-26", "14:00", 45, "Dr. Rajesh Verma", "Completed", "Video"),
      Mock("Sanjay Deshmukh", "2025-12-27", "10:00", 30, "Dr. Anjali Desai", "Completed", "In-person"),
      Mock("Pooja Bhat", "2025-12-27", "11:00", 60, "Dr. Sarah Johnson", "Cancelled", "Phone"),
      Mock("Nikhil Rao", "2025-12-25", "09:30", 45, "Dr. Rajesh Verma", "Completed", "Video") ]
  }

  /** The loop of `_initialize_mock_data`: each entry is built into an
      appointment under its id and stored, in order. */
  method StoreEach(data: seq<AppointmentCreate>, ids: seq<string>, createdAts: seq<string>)
    returns (ks: seq<string>, vs: map<string, Appointment>)
    requires |ids| == |data| && |createdAts| == |data|
    requires NoDuplicates(ids)
    ensures Consistent(ks, vs)
    ensures ks == ids
    ensures forall i :: 0 <= i < |ids| ==> vs[ids[i]] == NewAppointment(data[i], ids[i], createdAts[i])
  {
    ks, vs := [], map[];
    var i := 0;
    while i < |ids|
      invariant 0 <= i <= |ids|
      invariant ks == ids[..i]
      invariant forall k :: k in vs <==> k in ks
      invariant forall k :: k in vs ==> vs[k].id == k
      invariant forall j :: 0 <= j < i ==> vs[ids[j]] == NewAppointment(data[j], ids[j], createdAts[j])
    {
      var apt := NewAppointment(data[i], ids[i], createdAts[i]);
      vs := vs[ids[i] := apt];
      ks := ks + [ids[i]];
      assert ids[..i + 1] == ids[..i] + [ids[i]];
      i := i + 1;
    }
    assert ks == ids;
  }

  // ---------------------------------------------------------------------
  // The service

  class Service {
    /** The dictionary's keys in insertion order. */
    var keys: seq<string>
    /** `_appointments`. */
    var values: map<string, Appointment>

    /** Keys are listed once each, exactly the dictionary's, and every
        appointment is stored under its own id. */
    ghost predicate Valid()
      reads this
    {
      Consistent(keys, values)
    }

    /** Every stored time is a valid `HH:MM`, as validation of the stored
        models guarantees. */
    ghost predicate TimesValid()
      reads this
    {
      forall k :: k in values ==> ValidTime(values[k].time)
    }

    /** `list(self._appointments.values())`. */
    function Listed(): (r: seq<Appointment>)
      reads this
      requires Valid()
      ensures |r| == |keys|
    {
      InOrder(keys, values)
    }

    /** `__init__` with the seed data: the fifteen appointments in order,
        under their (distinct) generated ids. */
    constructor(ids: seq<string>, createdAts: seq<string>)
      requires |ids| == |MockData()| && |createdAts| == |MockData()|
      requires NoDuplicates(ids)
      ensures Valid()
      ensures keys == ids
      ensures forall i :: 0 <= i < |ids| ==> values[ids[i]] == NewAppointment(MockData()[i], ids[i], createdAts[i])
    {
      var ks, vs := StoreEach(MockData(), ids, createdAts);
      keys, values := ks, vs;
    }

    /** `get_appointments`: the stored appointments that pass every
        supplied filter, sorted by (date, time). */
    method GetAppointments(date: Option<string>, status: Option<string>, doctorName: Option<string>)
      returns (r: seq<Appointment>)
      requires Valid()
      ensures r == SortByKey(Filter(ExactQuery(date, status, doctorName), Listed()))
      ensures Sorted(r)
      ensures forall x :: x in r <==> (exists k :: k in values && values[k] == x) && MatchesExactly(x, date, status, doctorName)
    {
      var all := Listed();
      var appointments := Matching(all, date, status, doctorName);
      r := SortedCopy(appointments);
      QueryResult(all, date, status, doctorName);
      InOrderMembers(keys, values);
    }

    /** `get_appointment`: the appointment stored under the id, if any; ids
        are unique, so it is the only listed appointment with that id. */
    function GetAppointment(id: string): (r: Option<Appointment>)
      reads this
      requires Valid()
      ensures r.None? <==> forall i :: 0 <= i < |Listed()| ==> Listed()[i].id != id
      ensures r.Some? ==> r.value in Listed() && r.value.id == id
      ensures r.Some? ==> forall i :: 0 <= i < |Listed()| && Listed()[i].id == id ==> Listed()[i] == r.value
    {
      if id in values then
        assert Listed()[IndexOf(keys, id)] == values[id];
        Some(values[id])
      else None
    }

    /** `_has_conflict`. */
    method HasConflict(a: Appointment) returns (r: Result<bool>)
      requires Valid()
      ensures r == Detection(a.date, a.time, a.duration, a.doctorName, Listed(), None, DefaultBuffer)
      ensures TimesValid() && ValidTime(a.time) ==>
        r == Ok(exists k :: k in values && Hits(values[k], a.doctorName, a.date, None,
                                                TimeMinutes(a.time), TimeMinutes(a.time) + a.duration, DefaultBuffer))
    {
      r := DetectTimeConflict(a.date, a.time, a.duration, a.doctorName, Listed(), None, DefaultBuffer);
      if TimesValid() && ValidTime(a.time) {
        var s := Listed();
        InOrderMembers(keys, values);
        forall i | 0 <= i < |s| ensures ValidTime(s[i].time) {
          assert s[i] == values[keys[i]];
        }
        DetectionOfValidTimes(a.date, a.time, a.duration, a.doctorName, s, None, DefaultBuffer);
        HitsAmongValues(s, values, a, TimeMinutes(a.time));
      }
    }

    /** `create_appointment`: when the detector raises or finds a
        conflict, it raises and stores nothing; otherwise it stores the new
        appointment under its id. */
    method CreateAppointment(data: AppointmentCreate, newId: string, createdAt: string) returns (r: Result<Appointment>)
      requires Valid() && ValidCreate(data)
      modifies this
      ensures Valid()
      ensures old(TimesValid()) ==> TimesValid()
      ensures r.Err? <==> Detection(data.date, data.time, data.duration, data.doctorName, old(Listed()), None, DefaultBuffer) != Ok(false)
      ensures r.Err? ==> keys == old(keys) && values == old(values)
      ensures ConflictsIn(NewAppointment(data, newId, createdAt), old(Listed())) ==> r == Err(ConflictError(data))
      ensures r.Ok? ==>
        r.value == NewAppointment(data, newId, createdAt)
        && values == old(values)[newId := r.value]
        && keys == (if newId in old(keys) then old(keys) else old(keys) + [newId])
      ensures r.Ok? && newId !in old(values) ==> Listed() == old(Listed()) + [r.value]
    {
      var apt := NewAppointment(data, newId, createdAt);
      var conflict := HasConflict(apt);
      if conflict.Err? {
        return Err(conflict.message);
      }
      if conflict.value {
        return Err(ConflictError(data));
      }
      StoreConsistent(keys, values, apt);
      if newId !in keys {
        keys := keys + [newId];
      }
      values := values[newId := apt];
      return Ok(apt);
    }

    /** `update_appointment_status`: an absent id gives None and changes
        nothing; otherwise only the status of that entry changes, and the
        new status is not validated. */
    method UpdateAppointmentStatus(id: string, newStatus: string) returns (r: Option<Appointment>)
      requires Valid()
      modifies this
      ensures Valid()
      ensures keys == old(keys)
      ensures id !in old(values) ==> r == None && values == old(values)
      ensures id in old(values) ==> r == Some(old(values)[id].(status := newStatus)) && values == old(values)[id := r.value]
      ensures id in old(values) ==> Listed() == old(Listed())[IndexOf(keys, id) := r.value]
    {
      var appointment := GetAppointment(id);
      if appointment.None? {
        return None;
      }
      var updated := appointment.value.(status := newStatus);
      StatusConsistent(keys, values, id, newStatus);
      values := values[id := updated];
      return Some(updated);
    }

    /** `delete_appointment`: whether the id was stored; afterwards it is
        not, and the other entries keep their values and order. */
    method DeleteAppointment(id: string) returns (deleted: bool)
      requires Valid()
      modifies this
      ensures Valid()
      ensures deleted == (id in old(values))
      ensures values == old(values) - {id}
      ensures keys == Filter(KeyIsNot(id), old(keys))
      ensures Listed() == Filter(IdIsNot(id), old(Listed()))
    {
      DeleteConsistent(keys, values, id);
      InOrderDelete(keys, values, id);
      if id in values {
        values := values - {id};
        keys := Filter(KeyIsNot(id), keys);
        return true;
      }
      DeleteAbsent(keys, values, id);
      return false;
    }
  }
}
