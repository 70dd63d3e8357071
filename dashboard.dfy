/** The appointment dashboard (frontend/app/page.tsx): free-text search, the
    today/upcoming/past tabs, the four summary counts, the doctor list, the
    CSV export text, and the filter state with the query variables it sends.
    The reference date `today` is a parameter. */
module Dashboard {
  import opened Wrappers
  import opened Text
  import opened Seqs
  import opened Records

  // ---------------------------------------------------------------------
  // Search and tabs

  /** Case-insensitive substring match on the patient or the doctor name. */
  predicate MatchesSearch(a: Appointment, query: string) {
    Contains(Lower(a.patientName), Lower(query)) || Contains(Lower(a.doctorName), Lower(query))
  }

  function SearchPredicate(query: string): Appointment -> bool {
    (a: Appointment) => MatchesSearch(a, query)
  }

  /** The search stage: an empty query is skipped, otherwise filter. */
  function Search(appointments: seq<Appointment>, query: string): (r: seq<Appointment>)
    ensures query == "" ==> r == appointments
    ensures query != "" ==> forall i :: 0 <= i < |r| ==> r[i] in appointments && MatchesSearch(r[i], query)
    ensures query != "" ==>
      forall i :: 0 <= i < |appointments| && MatchesSearch(appointments[i], query) ==> appointments[i] in r
  {
    if query == "" then appointments else Filter(SearchPredicate(query), appointments)
  }

  /** The search stage keeps the list order. */
  lemma SearchKeepsOrder(appointments: seq<Appointment>, query: string)
    ensures IsSubsequence(Search(appointments, query), appointments)
  {
    if query == "" {
      SubsequenceReflexive(appointments);
    } else {
      FilterIsSubsequence(SearchPredicate(query), appointments);
    }
  }

  /** An appointment is kept by a non-empty search exactly when the
      lower-cased query occurs at some position of the lower-cased patient
      name or doctor name. */
  lemma SearchKeepsExactlyOccurrences(a: Appointment, query: string)
    ensures MatchesSearch(a, query) <==>
      (exists i :: OccursAt(Lower(a.patientName), Lower(query), i))
      || (exists i :: OccursAt(Lower(a.doctorName), Lower(query), i))
  {
    ContainsIffOccurs(Lower(a.patientName), Lower(query));
    ContainsIffOccurs(Lower(a.doctorName), Lower(query));
  }

  /** "john" finds "John Smith" as a patient and "Dr. John Lee" as a doctor. */
  lemma SearchIgnoresCase(a: Appointment, b: Appointment)
    requires a.patientName == "John Smith" && b.doctorName == "Dr. John Lee"
    ensures MatchesSearch(a, "john") && MatchesSearch(b, "john")
  {
    assert Lower("john") == "john";
    assert Lower(a.patientName)[..4] == "john";
    assert OccursAt(Lower(a.patientName), "john", 0);
    assert Lower(b.doctorName)[4..8] == "john";
    assert OccursAt(Lower(b.doctorName), "john", 4);
    SearchKeepsExactlyOccurrences(a, "john");
    SearchKeepsExactlyOccurrences(b, "john");
  }

  /** Skipping the empty query changes nothing: the empty text occurs in
      every name, so filtering by it would keep every appointment too. */
  lemma EmptyQueryGuardIsRedundant(appointments: seq<Appointment>)
    ensures Filter(SearchPredicate(""), appointments) == Search(appointments, "")
  {
    forall i | 0 <= i < |appointments| ensures SearchPredicate("")(appointments[i]) {
      assert Lower("") <= Lower(appointments[i].patientName);
    }
    FilterKeepsAll(SearchPredicate(""), appointments);
  }

  datatype Tab = All | Today | Upcoming | Past

  /** The tab buckets, comparing ISO date strings as strings. */
  predicate InTab(tab: Tab, a: Appointment, today: string) {
    match tab
    case All => true
    case Today => a.date == today
    case Upcoming => Less(today, a.date)
    case Past => Less(a.date, today)
  }

  function TabPredicate(tab: Tab, today: string): Appointment -> bool {
    (a: Appointment) => InTab(tab, a, today)
  }

  /** The tab stage: "all" passes the list through, the others filter. */
  function TabView(tab: Tab, appointments: seq<Appointment>, today: string): (r: seq<Appointment>)
    ensures tab == All ==> r == appointments
    ensures forall i :: 0 <= i < |r| ==> r[i] in appointments && InTab(tab, r[i], today)
    ensures forall i :: 0 <= i < |appointments| && InTab(tab, appointments[i], today) ==> appointments[i] in r
  {
    if tab == All then appointments else Filter(TabPredicate(tab, today), appointments)
  }

  /** The tab stage keeps the list order. */
  lemma TabViewKeepsOrder(tab: Tab, appointments: seq<Appointment>, today: string)
    ensures IsSubsequence(TabView(tab, appointments, today), appointments)
  {
    if tab == All {
      SubsequenceReflexive(appointments);
    } else {
      FilterIsSubsequence(TabPredicate(tab, today), appointments);
    }
  }

  /** `filteredAppointments`: nothing before data arrives, otherwise search
      then tab. */
  function FilteredAppointments(data: Option<seq<Appointment>>, query: string, tab: Tab, today: string): (r: seq<Appointment>)
    ensures data.None? ==> r == []
    ensures data.Some? ==> IsSubsequence(r, Search(data.value, query))
  {
    match data
    case None => []
    case Some(appointments) => TabViewKeepsOrder(tab, Search(appointments, query), today); TabView(tab, Search(appointments, query), today)
  }

  /** The today, upcoming and past views of any list split it: every
      appointment lies in exactly one of them. */
  lemma TabsPartition(appointments: seq<Appointment>, today: string)
    ensures |TabView(Today, appointments, today)| + |TabView(Upcoming, appointments, today)|
            + |TabView(Past, appointments, today)| == |TabView(All, appointments, today)|
  {
    forall i | 0 <= i < |appointments|
      ensures var a := appointments[i];
        (InTab(Today, a, today) || InTab(Upcoming, a, today) || InTab(Past, a, today))
        && !(InTab(Today, a, today) && InTab(Upcoming, a, today))
        && !(InTab(Today, a, today) && InTab(Past, a, today))
        && !(InTab(Upcoming, a, today) && InTab(Past, a, today))
    {
      Trichotomy(appointments[i].date, today);
    }
    FilterPartition3(TabPredicate(Today, today), TabPredicate(Upcoming, today), TabPredicate(Past, today), appointments);
  }

  // ---------------------------------------------------------------------
  // Summary counts

  datatype Stats = Stats(total: nat, today: nat, upcoming: nat, completed: nat)

  predicate CountsAsUpcoming(a: Appointment, today: string) {
    Less(today, a.date) && a.status != "Cancelled"
  }

  function UpcomingCountPredicate(today: string): Appointment -> bool {
    (a: Appointment) => CountsAsUpcoming(a, today)
  }

  function CompletedPredicate(): Appointment -> bool {
    (a: Appointment) => a.status == "Completed"
  }

  function NotCancelledPredicate(): Appointment -> bool {
    (a: Appointment) => a.status != "Cancelled"
  }

  /** `stats`: taken over the fetched list only, so neither the search nor
      the tab can change it. Today's and the upcoming appointments are
      disjoint, so their counts together stay within the total. */
  function SummaryStats(data: Option<seq<Appointment>>, today: string): (s: Stats)
    ensures data.None? ==> s == Stats(0, 0, 0, 0)
    ensures s.today + s.upcoming <= s.total && s.completed <= s.total
  {
    match data
    case None => Stats(0, 0, 0, 0)
    case Some(appointments) =>
      FilterMonotone(UpcomingCountPredicate(today), TabPredicate(Upcoming, today), appointments);
      TabsPartition(appointments, today);
      Stats(
        |appointments|,
        |Filter(TabPredicate(Today, today), appointments)|,
        |Filter(UpcomingCountPredicate(today), appointments)|,
        |Filter(CompletedPredicate(), appointments)|)
  }

  /** The counts against the unsearched tabs: total and today are the sizes
      of the "all" and "today" views; the upcoming count is the size of the
      upcoming view with its cancelled appointments taken out; the completed
      count is 0 exactly when no appointment is completed and below the
      total exactly when one is not. */
  lemma StatsAgainstTabs(appointments: seq<Appointment>, today: string)
    ensures var s := SummaryStats(Some(appointments), today);
      && s.total == |FilteredAppointments(Some(appointments), "", All, today)|
      && s.today == |FilteredAppointments(Some(appointments), "", Today, today)|
      && s.upcoming == |Filter(NotCancelledPredicate(), FilteredAppointments(Some(appointments), "", Upcoming, today))|
      && s.upcoming <= |FilteredAppointments(Some(appointments), "", Upcoming, today)|
      && (s.completed == 0 <==> forall i :: 0 <= i < |appointments| ==> appointments[i].status != "Completed")
      && (s.completed < s.total <==> exists i :: 0 <= i < |appointments| && appointments[i].status != "Completed")
  {
    FilterMonotone(UpcomingCountPredicate(today), TabPredicate(Upcoming, today), appointments);
    FilterFilter(TabPredicate(Upcoming, today), NotCancelledPredicate(), UpcomingCountPredicate(today), appointments);
    FilterShorter(CompletedPredicate(), appointments);
  }

  /** The asymmetry between the upcoming tab and the upcoming count: a
      cancelled future appointment is listed in the tab but not counted. */
  lemma CancelledUpcomingIsListedNotCounted(appointments: seq<Appointment>, today: string, k: nat)
    requires k < |appointments|
    requires Less(today, appointments[k].date) && appointments[k].status == "Cancelled"
    ensures appointments[k] in FilteredAppointments(Some(appointments), "", Upcoming, today)
    ensures SummaryStats(Some(appointments), today).upcoming
            < |FilteredAppointments(Some(appointments), "", Upcoming, today)|
  {
    FilterMonotoneStrict(UpcomingCountPredicate(today), TabPredicate(Upcoming, today), appointments, k);
  }

  // ---------------------------------------------------------------------
  // Doctors

  function DoctorNames(appointments: seq<Appointment>): (names: seq<string>)
    ensures |names| == |appointments|
    ensures forall i :: 0 <= i < |names| ==> names[i] == appointments[i].doctorName
  {
    seq(|appointments|, i requires 0 <= i < |appointments| => appointments[i].doctorName)
  }

  /** `uniqueDoctors`: each fetched doctor name once, compared exactly. */
  function UniqueDoctors(data: Option<seq<Appointment>>): (r: seq<string>)
    ensures data.None? ==> r == []
    ensures NoDuplicates(r)
    ensures data.Some? ==> forall i :: 0 <= i < |r| ==> r[i] in DoctorNames(data.value)
    ensures data.Some? ==> forall i :: 0 <= i < |data.value| ==> data.value[i].doctorName in r
  {
    match data
    case None => []
    case Some(appointments) =>
      var names := DoctorNames(appointments);
      var r := Distinct(names);
      assert forall i :: 0 <= i < |appointments| ==> names[i] == appointments[i].doctorName;
      r
  }

  /** The doctor list is in the order in which each name first appears. */
  lemma UniqueDoctorsFirstSeen(appointments: seq<Appointment>)
    ensures var r := UniqueDoctors(Some(appointments));
      forall i, j :: 0 <= i < j < |r| ==>
        IndexOf(DoctorNames(appointments), r[i]) < IndexOf(DoctorNames(appointments), r[j])
  {
    DistinctFirstSeenOrder(DoctorNames(appointments));
  }

  // ---------------------------------------------------------------------
  // CSV export

  const CsvHeader: seq<string> := ["Patient", "Date", "Time", "Duration", "Doctor", "Status", "Mode"]

  /** The seven cells of a row; the duration reads "<n> min". */
  function CsvCells(a: Appointment): seq<string> {
    [a.patientName, a.date, a.time, IntToString(a.duration) + " min", a.doctorName, a.status, a.mode]
  }

  function CsvLine(a: Appointment): string {
    Join(CsvCells(a), ',')
  }

  function CsvLines(visible: seq<Appointment>): (lines: seq<string>)
    ensures |lines| == |visible|
    ensures forall i :: 0 <= i < |visible| ==> lines[i] == CsvLine(visible[i])
  {
    seq(|visible|, i requires 0 <= i < |visible| => CsvLine(visible[i]))
  }

  /** `exportToCSV`'s text: nothing for an empty list, otherwise the header
      and one line per row, joined by newlines, with no quoting. */
  function CsvText(visible: seq<Appointment>): Option<string> {
    if |visible| == 0 then None
    else Some(Join([Join(CsvHeader, ',')] + CsvLines(visible), '\n'))
  }

  /** No text cell of the appointment contains `c`. */
  predicate CellsAvoid(a: Appointment, c: char) {
    c !in a.patientName && c !in a.date && c !in a.time && c !in a.doctorName
      && c !in a.status && c !in a.mode
  }

  lemma DurationCellAvoids(d: int, c: char)
    requires c == ',' || c == '\n'
    ensures c !in IntToString(d) + " min"
  {
    var n := NatToString(if d < 0 then -d else d);
    assert forall x :: x in n ==> IsDigit(x);
  }

  /** Split back into cells, every row has the seven cells it was built from,
      unless a text cell itself contains a comma. */
  lemma CsvLineCells(a: Appointment)
    requires CellsAvoid(a, ',')
    ensures Split(CsvLine(a), ',') == CsvCells(a)
    ensures |Split(CsvLine(a), ',')| == 7
  {
    DurationCellAvoids(a.duration, ',');
    SplitJoin(CsvCells(a), ',');
  }

  lemma CsvLineAvoidsNewline(a: Appointment)
    requires CellsAvoid(a, '\n')
    ensures '\n' !in CsvLine(a)
  {
    DurationCellAvoids(a.duration, '\n');
    var cells := CsvCells(a);
    JoinAvoids(cells, ',', '\n');
  }

  lemma {:induction false} JoinAvoids(parts: seq<string>, sep: char, c: char)
    requires sep != c
    requires forall k :: 0 <= k < |parts| ==> c !in parts[k]
    ensures c !in Join(parts, sep)
    decreases |parts|
  {
    if |parts| > 1 {
      JoinAvoids(parts[1..], sep, c);
    }
  }

  lemma HeaderAvoidsNewline()
    ensures '\n' !in Join(CsvHeader, ',')
  {
    JoinAvoids(CsvHeader, ',', '\n');
  }

  /** No line of the export holds a newline when no cell does. */
  lemma CsvLinesAvoidNewline(visible: seq<Appointment>)
    requires forall i :: 0 <= i < |visible| ==> CellsAvoid(visible[i], '\n')
    ensures forall k :: 0 <= k < |visible| + 1 ==> '\n' !in ([Join(CsvHeader, ',')] + CsvLines(visible))[k]
  {
    HeaderAvoidsNewline();
    forall i | 0 <= i < |visible| ensures '\n' !in CsvLines(visible)[i] {
      CsvLineAvoidsNewline(visible[i]);
    }
    var lines := [Join(CsvHeader, ',')] + CsvLines(visible);
    forall k | 0 <= k < |lines| ensures '\n' !in lines[k] {
      if k > 0 {
        assert lines[k] == CsvLines(visible)[k - 1];
      }
    }
  }

  /** The export splits into exactly one header line and one line per
      visible appointment, in order, when no cell holds a newline. */
  lemma CsvTextLines(visible: seq<Appointment>)
    requires |visible| > 0
    requires forall i :: 0 <= i < |visible| ==> CellsAvoid(visible[i], '\n')
    ensures CsvText(visible).Some?
    ensures Split(CsvText(visible).value, '\n') == [Join(CsvHeader, ',')] + CsvLines(visible)
    ensures |Split(CsvText(visible).value, '\n')| == |visible| + 1
  {
    var lines := [Join(CsvHeader, ',')] + CsvLines(visible);
    CsvLinesAvoidNewline(visible);
    SplitJoin(lines, '\n');
  }

  lemma HeaderCells()
    ensures |Split(Join(CsvHeader, ','), ',')| == 7
  {
    SplitJoin(CsvHeader, ',');
  }

  /** Two rows give three lines, each of seven comma-separated cells. */
  lemma TwoRowsThreeLines(a: Appointment, b: Appointment)
    requires CellsAvoid(a, ',') && CellsAvoid(a, '\n') && CellsAvoid(b, ',') && CellsAvoid(b, '\n')
    ensures |Split(CsvText([a, b]).value, '\n')| == 3
    ensures forall k :: 0 <= k < 3 ==> |Split(Split(CsvText([a, b]).value, '\n')[k], ',')| == 7
  {
    CsvTextLines([a, b]);
    var lines := Split(CsvText([a, b]).value, '\n');
    assert lines == [Join(CsvHeader, ','), CsvLine(a), CsvLine(b)];
    HeaderCells();
    CsvLineCells(a);
    CsvLineCells(b);
  }

  /** With no escaping, a comma in a patient name shifts the columns: the
      line splits into eight cells. */
  lemma CommaInNameAddsCell(a: Appointment)
    requires a.patientName == "Kumar, Rajesh"
    requires CellsAvoid(a.(patientName := "Kumar"), ',')
    ensures |Split(CsvLine(a), ',')| == 8
  {
    var cells := ["Kumar", " Rajesh"] + CsvCells(a)[1..];
    DurationCellAvoids(a.duration, ',');
    assert Join(cells, ',') == CsvLine(a);
    SplitJoin(cells, ',');
  }

  // ---------------------------------------------------------------------
  // Filter state

  datatype Filters = Filters(date: string, status: string, doctorName: string)

  datatype FilterKey = DateKey | StatusKey | DoctorNameKey

  datatype ViewState = ViewState(
    filters: Filters,
    activeTab: Tab,
    searchQuery: string,
    selectedCalendarDate: Option<string>)

  const InitialState: ViewState := ViewState(Filters("", "", ""), All, "", None)

  /** `handleFilterChange(key, value)`. */
  function HandleFilterChange(s: ViewState, key: FilterKey, value: string): (t: ViewState)
    ensures t.activeTab == s.activeTab && t.searchQuery == s.searchQuery
    ensures t.filters.date == (if key == DateKey then value else s.filters.date)
    ensures t.filters.status == (if key == StatusKey then value else s.filters.status)
    ensures t.filters.doctorName == (if key == DoctorNameKey then value else s.filters.doctorName)
    ensures t.selectedCalendarDate == (if key == DateKey then Some(value) else s.selectedCalendarDate)
  {
    var f :=
      match key
      case DateKey => s.filters.(date := value)
      case StatusKey => s.filters.(status := value)
      case DoctorNameKey => s.filters.(doctorName := value);
    var t := s.(filters := f);
    if key == DateKey then t.(selectedCalendarDate := Some(value)) else t
  }

  /** `handleCalendarDateSelect(date)`. */
  function HandleCalendarDateSelect(s: ViewState, date: string): (t: ViewState)
    ensures t.selectedCalendarDate == Some(date) && t.filters.date == date
    ensures t.filters.status == s.filters.status && t.filters.doctorName == s.filters.doctorName
    ensures t.activeTab == s.activeTab && t.searchQuery == s.searchQuery
  {
    s.(selectedCalendarDate := Some(date), filters := s.filters.(date := date))
  }

  /** `clearFilters`: the three filters, the calendar date and the search are
      reset; the tab stays. */
  function ClearFilters(s: ViewState): (t: ViewState)
    ensures t.filters == Filters("", "", "") && t.selectedCalendarDate == None && t.searchQuery == ""
    ensures t.activeTab == s.activeTab
  {
    ViewState(Filters("", "", ""), s.activeTab, "", None)
  }

  datatype Variables = NoVariables | FilterVariables(filters: Filters)

  /** The query variables: the filters when any is set, otherwise `{}`. */
  function QueryVariables(f: Filters): (v: Variables)
    ensures v.FilterVariables? <==> f.date != "" || f.status != "" || f.doctorName != ""
    ensures v.FilterVariables? ==> v.filters == f
  {
    if f.date != "" || f.status != "" || f.doctorName != "" then FilterVariables(f) else NoVariables
  }

  predicate HasActiveFilters(s: ViewState) {
    s.filters.date != "" || s.filters.status != "" || s.filters.doctorName != "" || s.searchQuery != ""
  }

  /** Choosing a date on the calendar and typing it into the date filter
      lead to the same state. */
  lemma CalendarAndDateFilterAgree(s: ViewState, date: string)
    ensures HandleCalendarDateSelect(s, date) == HandleFilterChange(s, DateKey, date)
  {
  }

  /** After clearing, nothing is active, `{}` is sent, and clearing again
      changes nothing. */
  lemma ClearFiltersResets(s: ViewState)
    ensures !HasActiveFilters(ClearFilters(s))
    ensures QueryVariables(ClearFilters(s).filters) == NoVariables
    ensures ClearFilters(ClearFilters(s)) == ClearFilters(s)
  {
  }

  /** Active filters exist exactly when variables are sent or a search is
      typed. */
  lemma ActiveIffVariablesOrSearch(s: ViewState)
    ensures HasActiveFilters(s) <==> QueryVariables(s.filters).FilterVariables? || s.searchQuery != ""
  {
  }

  /** Setting a non-empty filter value makes the filters active and sends
      them. */
  lemma NonEmptyFilterIsSent(s: ViewState, key: FilterKey, value: string)
    requires value != ""
    ensures HasActiveFilters(HandleFilterChange(s, key, value))
    ensures QueryVariables(HandleFilterChange(s, key, value).filters) == FilterVariables(HandleFilterChange(s, key, value).filters)
  {
  }
}
