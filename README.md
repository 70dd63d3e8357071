# Appointment scheduling core of the SwasthiQ EMR, modelled in Dafny

The SwasthiQ EMR is a small appointment system for a clinic. It has three
parts, and this project models and proves properties of each of them.

- **The dashboard** (`frontend/app/page.tsx`): free-text search, date tabs
  against a `today` value, summary counts, the distinct doctor list, CSV
  export text, and the filter-state handlers with their query variables.
- **The doctor day timeline** (`frontend/components/DoctorTimeline.tsx`):
  - fifteen hourly slots from 07:00 to 21:00;
  - the first appointment covering each slot;
  - block start versus continuation;
  - the end label, the block height and the 12-hour label.
- **Two in-memory backends.**
  - The GraphQL store of `backend/main.py`: a list `appointments_db` with
    `max + 1` numeric ids, an unbuffered overlap check, case-insensitive
    query filters, and in-place update and delete.
  - The service of `backend/appointment_service.py`: a dict keyed by uuid,
    conflict detection with a 5-minute buffer from
    `backend/utils/conflict_detector.py`, results sorted by `(date, time)`,
    and the pydantic field constraints of `backend/models/appointment.py`.

Modules, one per concern:

| module | file | models |
|---|---|---|
| `Wrappers` | wrappers.dfy | `Option` and `Result` (an exception is `Err(message)`) |
| `Text` | text.dfy | digits, decimal printing and `int()` parsing, ASCII lower-casing, substring search, string order, `join` / `split`, `padStart(2, '0')` |
| `Seqs` | seqs.dfy | `filter` / list comprehension, `find`, `Array.from(new Set(...))` |
| `Records` | records.dfy | the GraphQL appointment record and input |
| `PyTime` | pytime.dfy | `datetime.strptime(t, "%H:%M")` as minutes of the day |
| `Models` | models.dfy | the pydantic models as validity predicates |
| `ConflictDetector` | conflict_detector.dfy | `detect_time_conflict`, as a loop method and its specification |
| `AppointmentService` | appointment_service.dfy | the `AppointmentService` class |
| `ServiceSort` | service_sort.dfy | the stable `(date, time)` sort, as in-place insertion sort |
| `MainStore` | main_store.dfy | the store of `backend/main.py` as a class over the list |
| `DoctorTimeline` | timeline.dfy | the timeline component |
| `Dashboard` | dashboard.dfy | the dashboard page's data logic |

The model works as follows.

- **Time.** Times are read the way the source reads them.
  - The backends and pydantic use `strptime("%H:%M")`: one- or two-digit
    fields, and nothing after the minutes.
  - The timeline uses `parseInt` and `Number` on the text before and after
    the colon.
  - A parsed clock time is a minute of the day, so `timedelta` arithmetic
    is integer arithmetic.
- **Strings.** Dates and times are compared as strings, in code-point
  order.
- **Exceptions.** An exception becomes an `Err`, and the state is then
  unchanged.
  - `check_time_conflict` in `backend/main.py` catches every exception
    and answers `False`. That is modelled as written.
- **Stores as classes.**
  - The list store is a class with a `seq` field.
  - The service dict is a class with the keys in insertion order beside a
    `map`.
  - Their methods state the whole new state.
- **Being told.** `today`, the new uuid and `created_at` are parameters.

## Model

| member | source | states |
|---|---|---|
| DoctorTimeline.TimeSlots | frontend/components/DoctorTimeline.tsx:14-20 | the loop pushes exactly 15 labels, the i-th being the zero-padded label of hour 7 + i |
| DoctorTimeline.SlotLabelsShape | frontend/components/DoctorTimeline.tsx:14-20 | there are 15 slots, "07:00" first and "21:00" last; each label is five characters and reads back as its hour; labels ascend strictly |
| DoctorTimeline.SlotLabelReadsBack | frontend/components/DoctorTimeline.tsx:17 | a label splits into the two-digit hour and "00" and parses back to (hour, 0) |
| DoctorTimeline.SlotLabelOrder | frontend/components/DoctorTimeline.tsx:16-17 | a smaller hour gives a lexicographically smaller label |
| DoctorTimeline.DoctorAppointments | frontend/components/DoctorTimeline.tsx:23-27 | exactly the appointments of that doctor and date are kept; the result is empty iff there are none |
| DoctorTimeline.DoctorAppointmentsKeepOrder | frontend/components/DoctorTimeline.tsx:23-27 | the kept appointments are a subsequence of the list, in list order |
| DoctorTimeline.AppointmentAt | frontend/components/DoctorTimeline.tsx:30-37 | the occupant is the first appointment whose hour range covers the slot hour; no occupant means no appointment covers it; an unreadable slot hour gives none |
| DoctorTimeline.FirstCoverWins | frontend/components/DoctorTimeline.tsx:30-37 | the first covering appointment is the occupant, so a later overlapping one is hidden |
| DoctorTimeline.EmptyDayIsAvailable | frontend/components/DoctorTimeline.tsx:75 | with no appointment for the doctor that day, the count is 0 and every slot is Available with no occupant |
| DoctorTimeline.LoneAppointmentSlots | frontend/components/DoctorTimeline.tsx:32-36 | a lone appointment occupies exactly the slots with hour in [h, h + ceil(duration/60)) |
| DoctorTimeline.NineOClockForNinety | frontend/components/DoctorTimeline.tsx:80-142 | 09:00 for 90 minutes: block start at 09:00 ending "10:30" with height 90, continuation at 10:00, 11:00 available |
| DoctorTimeline.BlockStartIffTimeIsLabel | frontend/components/DoctorTimeline.tsx:82 | a slot starts a block iff its occupant's time equals the slot label, and is a continuation iff occupied otherwise; a block start begins on the slot's hour at minute 0 |
| DoctorTimeline.AtMostOneBlockStart | frontend/components/DoctorTimeline.tsx:82 | one appointment heads at most one block |
| DoctorTimeline.OffHourStartHasNoBlock | frontend/components/DoctorTimeline.tsx:82 | an occupant whose minutes are not 0 never starts a block |
| DoctorTimeline.HalfPastHasNoBlockStart | frontend/components/DoctorTimeline.tsx:82 | 09:30 for 45 minutes occupies the 09:00 slot but no slot starts a block |
| DoctorTimeline.EndLabelReadsBack | frontend/components/DoctorTimeline.tsx:117-123 | the end label reads back as (total div 60, total mod 60) of total = h*60 + m + d: minutes two digits below 60, hour not wrapped at 24 |
| DoctorTimeline.JsRem | frontend/components/DoctorTimeline.tsx:121 | JavaScript's `%` agrees with the Euclidean remainder on non-negative numbers; for a negative dividend the remainder lies in (-b, 0], as the sign follows the dividend; in both cases the dividend less the remainder is a multiple of b |
| DoctorTimeline.EndLabel | frontend/components/DoctorTimeline.tsx:118-122 | no contract of its own: EndLabelReadsBack states what the label reads back as |
| DoctorTimeline.EndLabelOf | frontend/components/DoctorTimeline.tsx:117-123 | no contract of its own: NineOClockForNinety shows "09:00" for 90 minutes ending "10:30" |
| DoctorTimeline.BlockHeight | frontend/components/DoctorTimeline.tsx:104 | no contract of its own: BlockHeightRoundsUp pins the height |
| DoctorTimeline.FormatTime | frontend/components/DoctorTimeline.tsx:55-60 | no contract of its own: FormatSlotTime and TwelveHourLabel state the 12-hour label |
| DoctorTimeline.SlotAt | frontend/components/DoctorTimeline.tsx:81-142 | no contract of its own: BlockStartIffTimeIsLabel, AtMostOneBlockStart and OffHourStartHasNoBlock state its roles |
| DoctorTimeline.Timeline | frontend/components/DoctorTimeline.tsx:80-142 | one row per slot, in slot order, each labelled by its slot |
| DoctorTimeline.AppointmentCount | frontend/components/DoctorTimeline.tsx:75 | at most the number of appointments, and 0 iff none is of that doctor and date |
| DoctorTimeline.CeilDiv | frontend/components/DoctorTimeline.tsx:34 | `Math.ceil(a / b)` is the least q with b*q >= a |
| DoctorTimeline.BlockHeightRoundsUp | frontend/components/DoctorTimeline.tsx:104 | the height is a multiple of 15, at least the duration and less than the duration + 15 |
| DoctorTimeline.FormatSlotTime | frontend/components/DoctorTimeline.tsx:55-60 | for a slot hour the label ends in "PM" iff the hour is at least 12 and in "AM" otherwise, shows ":00", and its hour is the hour less 12 iff above 12 |
| DoctorTimeline.TwelveHourLabel | frontend/components/DoctorTimeline.tsx:59 | "{d}:00 {suffix}" ends with the suffix after ":00 " and reads back as hour d |
| Dashboard.Search | frontend/app/page.tsx:57-63 | an empty query keeps the list; otherwise the kept appointments are exactly the matching ones |
| Dashboard.SearchKeepsOrder | frontend/app/page.tsx:57-63 | the search result is a subsequence of its input |
| Dashboard.SearchKeepsExactlyOccurrences | frontend/app/page.tsx:58-61 | an appointment matches iff the lower-cased query occurs at some position of the lower-cased patient or doctor name |
| Dashboard.SearchIgnoresCase | frontend/app/page.tsx:58-61 | "john" finds patient "John Smith" and doctor "Dr. John Lee" |
| Dashboard.EmptyQueryGuardIsRedundant | frontend/app/page.tsx:57 | filtering with the empty query would keep everything too, so skipping it changes nothing |
| Dashboard.TabView | frontend/app/page.tsx:65-74 | "all" keeps the list; today, upcoming and past keep exactly the appointments whose date is equal to, after or before `today` |
| Dashboard.TabViewKeepsOrder | frontend/app/page.tsx:65-74 | each tab's result is a subsequence of the searched list |
| Dashboard.FilteredAppointments | frontend/app/page.tsx:53-75 | no data gives the empty list; otherwise the result is a subsequence of the search result |
| Dashboard.TabsPartition | frontend/app/page.tsx:66-71 | the today, upcoming and past views' sizes add up to the size of "all" |
| Dashboard.SummaryStats | frontend/app/page.tsx:77-86 | with no data all four counts are 0; today's and the upcoming count together, and the completed count, stay within the total |
| Dashboard.StatsAgainstTabs | frontend/app/page.tsx:77-86 | the counts come from the fetched list: total and today equal the unsearched "all" and "today" views; upcoming is the size of the upcoming view with its cancelled appointments removed; completed is 0 iff no appointment is completed, and below the total iff some appointment is not |
| Dashboard.CancelledUpcomingIsListedNotCounted | frontend/app/page.tsx:65-86 | a cancelled future appointment is listed under "upcoming" but not counted, so the count is strictly below the tab's size |
| Dashboard.UniqueDoctors | frontend/app/page.tsx:106-109 | no data gives no doctors; otherwise every fetched doctor name exactly once, nothing else |
| Dashboard.UniqueDoctorsFirstSeen | frontend/app/page.tsx:108 | the names are in the order of their first occurrence |
| Dashboard.CsvText | frontend/app/page.tsx:111-125 | no contract of its own: CsvTextLines, CsvLineCells and TwoRowsThreeLines state its lines and cells |
| Dashboard.CsvTextLines | frontend/app/page.tsx:111-125 | when no cell holds a newline, the export splits into the header line and one line per visible appointment, in order |
| Dashboard.CsvLineCells | frontend/app/page.tsx:115-125 | a row without commas in its cells splits back into its 7 cells, the duration as "<n> min" |
| Dashboard.TwoRowsThreeLines | frontend/app/page.tsx:111-125 | two rows give three lines of seven comma-separated cells each |
| Dashboard.CommaInNameAddsCell | frontend/app/page.tsx:125 | with no escaping, "Kumar, Rajesh" as patient name makes the line split into eight cells |
| Dashboard.HandleFilterChange | frontend/app/page.tsx:88-93 | only the named filter changes; a date change also selects that calendar date; tab and search stay |
| Dashboard.HandleCalendarDateSelect | frontend/app/page.tsx:95-98 | the calendar date and the date filter become the date; everything else stays |
| Dashboard.CalendarAndDateFilterAgree | frontend/app/page.tsx:88-98 | picking a date on the calendar and typing it into the date filter give the same state |
| Dashboard.ClearFilters | frontend/app/page.tsx:100-104 | the three filters, the calendar date and the search are reset; the tab stays |
| Dashboard.ClearFiltersResets | frontend/app/page.tsx:100-104 | after clearing, nothing is active, `{}` is sent, and clearing again changes nothing |
| Dashboard.QueryVariables | frontend/app/page.tsx:44 | the filters are sent iff some filter is non-empty, otherwise `{}` |
| Dashboard.HasActiveFilters | frontend/app/page.tsx:134 | no contract of its own: ActiveIffVariablesOrSearch relates it to the variables sent |
| Dashboard.ActiveIffVariablesOrSearch | frontend/app/page.tsx:134 | filters are active iff variables are sent or a search is typed |
| Dashboard.NonEmptyFilterIsSent | frontend/app/page.tsx:88-93 | setting a non-empty filter value makes the filters active and sends them |
| MainStore.Store.CheckTimeConflict | backend/main.py:177-207 | the loop returns the specification's answer: false on an unreadable new or stored time or an end outside the range of `datetime`, true at the first overlapping record of the doctor and day that is not excluded |
| MainStore.ConflictIffBlocked | backend/main.py:191-205 | when no record of the doctor on that day raises (its time reads and its end stays within `datetime`), the check is true iff some record blocks: same doctor and day, not the excluded id, and start < end' and end > start' in minutes |
| MainStore.Span | backend/main.py:199-200 | no contract of its own: the stored record's start and end, or the error strptime or the `timedelta` addition raises |
| MainStore.OverflowHidesLaterConflict | backend/main.py:200-207 | a stored record whose end falls before year 1 ends the check with false, hiding a later record that blocks |
| MainStore.BackToBackIsFree | backend/main.py:203 | 09:30 after 09:00 for 30 minutes is not a conflict |
| MainStore.CancelledStillBlocks | backend/main.py:194-204 | a cancelled booking still blocks its time |
| MainStore.UnreadableTimeHidesLaterConflict | backend/main.py:194-207 | a stored time strptime cannot read ends the check with false, hiding a later real conflict |
| MainStore.Store.Appointments | backend/main.py:233-244 | the filter steps return the records matching every given filter, in order |
| MainStore.MatchesQuery | backend/main.py:235-242 | no contract of its own: Store.Appointments, NoFilterReturnsAll and StatusFilterIgnoresCase state what it selects |
| MainStore.NoFilterReturnsAll | backend/main.py:235-242 | for every combination of absent or empty filters, every record is returned, in order |
| MainStore.StatusFilterIgnoresCase | backend/main.py:239 | "scheduled" and "SCHEDULED" both select status "Scheduled" |
| MainStore.Store.AppointmentById | backend/main.py:255-256 | none iff no record has the id; otherwise the first record that has it |
| MainStore.ParsedIds | backend/main.py:291 | `int()` of every id, failing iff some id is not an integer |
| MainStore.Max | backend/main.py:291 | `max` of a non-empty list is an upper bound that occurs in it |
| MainStore.NextId | backend/main.py:291 | no contract of its own: NextIdFails and NextIdIsFresh state when it fails and that its id is new |
| MainStore.NextIdFails | backend/main.py:291 | id generation raises iff the list is empty or some id is not an integer |
| MainStore.NextIdIsFresh | backend/main.py:291 | a generated id differs from every stored id |
| MainStore.Created | backend/main.py:298-307 | the new record carries the input fields and the new id, with the status "Scheduled" when the input's is empty |
| MainStore.Store.CreateAppointment | backend/main.py:291-316 | an id failure or a conflict returns the error and leaves the list unchanged; otherwise the created record is appended at the end |
| MainStore.CreatedIdIsNew | backend/main.py:291-309 | the appended record's id is new to the list |
| MainStore.Replacement | backend/main.py:337-346 | the written record keeps the id and takes the input's fields and status verbatim |
| MainStore.Store.UpdateAppointment | backend/main.py:331-348 | a missing id gives none with the list unchanged; a conflict, with the record's own id excluded, raises with the list unchanged; otherwise only the first index with the id is replaced |
| MainStore.UpdateKeepsOthers | backend/main.py:331-347 | the replacement keeps the id, the position and the length, and no earlier record has the id |
| MainStore.Store.DeleteAppointment | backend/main.py:362-368 | every record with the id goes and the rest stay in order; success iff some record had the id, with the matching message |
| MainStore.DeleteRemovesOnlyId | backend/main.py:364 | afterwards no record has the id, every other record is still there, in its original order |
| MainStore.RootStats | backend/main.py:422-428 | the total is the number of records and each status count is at most the total |
| MainStore.StatusCountsAddUp | backend/main.py:422-428 | the four status counts never exceed the total, and add up to it iff every status is one of the four, spelled exactly |
| ConflictDetector.DetectTimeConflict | backend/utils/conflict_detector.py:15-66 | the loop returns the specification's answer, including the error a stored or new unreadable time raises |
| ConflictDetector.ScanFindsHits | backend/utils/conflict_detector.py:40-66 | when every appointment the loop looks at reads, the answer is true iff some appointment is a hit: not excluded, same doctor and date, not cancelled, buffered ranges overlapping |
| ConflictDetector.DetectionOfValidTimes | backend/utils/conflict_detector.py:32-66 | for validated times the result is Ok(true iff some existing appointment is a hit) |
| ConflictDetector.BufferDoubles | backend/utils/conflict_detector.py:36-63 | with buffer b on both ranges the test is the plain overlap test with a 2b gap required |
| ConflictDetector.DefaultBufferGap | backend/utils/conflict_detector.py:22-63 | with the default buffer of 5, a 9-minute gap after 09:00-09:30 conflicts and a 10-minute gap does not |
| ConflictDetector.AgainstNineOClock | backend/utils/conflict_detector.py:32-63 | against a stored 09:00-09:30 booking, any padded start time gives the buffered overlap test |
| ConflictDetector.AgainstOne | backend/utils/conflict_detector.py:40-63 | against one appointment that is not skipped the answer is the buffered overlap test |
| ConflictDetector.CancelledNeverConflict | backend/utils/conflict_detector.py:49-51 | removing every cancelled appointment leaves the answer unchanged |
| ConflictDetector.ExcludedIsIgnored | backend/utils/conflict_detector.py:41-43 | removing the appointments with the excluded id leaves the answer unchanged |
| ConflictDetector.SkippedDoNotMatter | backend/utils/conflict_detector.py:41-51 | dropping any appointments the loop skips leaves the scan's answer unchanged |
| ConflictDetector.DetectionIgnoresSkipped | backend/utils/conflict_detector.py:32-51 | dropping any appointments the loop skips leaves the answer, or the error an unreadable new time raises, unchanged |
| ConflictDetector.NothingToCompare | backend/utils/conflict_detector.py:40-66 | with no appointment of that doctor and date, or none at all, the answer is false once the new time reads |
| ConflictDetector.ConflictIsSymmetric | backend/utils/conflict_detector.py:62-63 | for two validated, non-cancelled appointments of one doctor and day, swapping new and existing gives the same answer |
| AppointmentService.StoreEach | backend/appointment_service.py:44-46 | each entry becomes an appointment under its own id, the keys are the ids in order, and the store is consistent |
| AppointmentService.Service.constructor | backend/appointment_service.py:15-46 | the fifteen seed appointments are stored under the given distinct ids, in order, each built as `create_appointment` builds it |
| AppointmentService.MockData | backend/appointment_service.py:21-42 | the seed list holds fifteen entries |
| AppointmentService.Service.Listed | backend/appointment_service.py:50 | the dict's values in insertion order, one per key |
| AppointmentService.Matching | backend/appointment_service.py:50-57 | the three conditional comprehensions keep exactly the appointments that pass every given filter, in order |
| AppointmentService.SortedCopy | backend/appointment_service.py:59 | sorting in place gives the stable sort by (date, time) |
| ServiceSort.SortInPlace | backend/appointment_service.py:59 | insertion sort on the array leaves the stable sort of its old contents |
| ServiceSort.InsertStep | backend/appointment_service.py:59 | one step moves the next element into place in the sorted prefix and leaves the rest alone |
| ServiceSort.SortIsSorted | backend/appointment_service.py:59 | the result is ordered by (date, time) |
| ServiceSort.SortIsPermutation | backend/appointment_service.py:59 | the result holds the same appointments, as many times each |
| ServiceSort.SortIsStable | backend/appointment_service.py:59 | appointments with equal (date, time) keep their original order |
| ServiceSort.SortedIsChronological | backend/appointment_service.py:59 | for validated appointments the sorted order is by calendar date, then by minute of the day |
| ServiceSort.KeyOrder | backend/appointment_service.py:59 | the (date, time) tuple order is irreflexive, asymmetric, transitive and total up to equal keys |
| AppointmentService.QueryResult | backend/appointment_service.py:48-60 | the answer is sorted, a permutation of the matching appointments, and stable within each key |
| AppointmentService.Service.GetAppointments | backend/appointment_service.py:48-60 | the result is the sorted matching listing, and holds exactly the stored values that pass every given filter |
| AppointmentService.Service.GetAppointment | backend/appointment_service.py:62-64 | none iff no stored appointment has the id; otherwise the unique one that has it |
| AppointmentService.NewAppointmentIsValid | backend/appointment_service.py:68-78 | a valid create request builds a valid appointment with the given id and the status defaulting to "Scheduled" |
| AppointmentService.Service.HasConflict | backend/appointment_service.py:103-114 | the detector runs over every stored appointment with no exclusion; with valid stored times it answers whether some stored value is a hit |
| AppointmentService.HitsAmongValues | backend/appointment_service.py:112 | a hit among the listed values is a hit among the stored values, and back |
| AppointmentService.Service.CreateAppointment | backend/appointment_service.py:66-84 | an error iff the detector raises or finds a conflict, a conflict giving the "Time conflict" message, and the store then unchanged; otherwise the new key maps to the new appointment, the listing grows by it at the end, and the store stays consistent |
| AppointmentService.Service.UpdateAppointmentStatus | backend/appointment_service.py:86-94 | an absent id gives none with the store unchanged; otherwise only that entry's status changes, in the same listing position |
| AppointmentService.Service.DeleteAppointment | backend/appointment_service.py:96-101 | the result says whether the key was present; afterwards the key is gone, every other entry is unchanged and the listing loses only that appointment |
| AppointmentService.InOrderDelete | backend/appointment_service.py:98-99 | deleting a key removes exactly its appointment from the listing, keeping the others in order |
| AppointmentService.InOrderUpdate | backend/appointment_service.py:93 | replacing the value of a key replaces only its listing entry |
| AppointmentService.InOrderAppend | backend/appointment_service.py:83 | storing a new key appends its appointment to the listing |
| PyTime.Strptime | backend/utils/conflict_detector.py:10-12 | a parsed time is a minute of the day, below 1440 |
| PyTime.AddMinutes | backend/main.py:192 | no contract of its own: the end of `strptime(...) + timedelta(minutes=d)`, or the OverflowError outside years 1 to 9999 |
| PyTime.Int32DurationOverflowsOnlyBelow | backend/main.py:192 | for a clock time and a 32-bit GraphQL `Int` duration, the addition raises iff the end falls before year 1, and otherwise gives start + duration |
| PyTime.NoOverflowWithinCenturies | backend/main.py:200 | durations of less than 693595 days either way never overflow |
| PyTime.StrptimeOfPaddedClock | backend/utils/conflict_detector.py:10-12 | every "HH:MM" clock time reads back as its minute of the day |
| PyTime.StrptimeOneDigitHour | backend/utils/conflict_detector.py:12 | a one-digit hour "9:05" is accepted |
| PyTime.StrptimeOutOfRange | backend/utils/conflict_detector.py:12 | hour 24 and minute 60 are rejected |
| PyTime.StrptimeRejectsSeconds | backend/utils/conflict_detector.py:12 | a seconds field is rejected |
| Models.TimeMinutes | backend/models/appointment.py:31-41 | a valid time is a minute of the day below 1440 and is what strptime reads from it |
| Models.PaddedClockIsValid | backend/models/appointment.py:31-41 | every two-digit in-range clock time is valid |
| Models.DateOrder | backend/models/appointment.py:15 | two dates of the pattern compare as strings as their (year, month, day) numbers do |
| Models.TimeOrder | backend/models/appointment.py:31-41 | two valid times compare as strings as their minutes of the day do |
| Models.LeapDayIn2024 | backend/models/appointment.py:21-29 | 2024-02-29 is valid and 2023-02-29 is not |
| Models.LeapDayInCenturies | backend/models/appointment.py:21-29 | 1900-02-29 is rejected and 2000-02-29 accepted |
| Models.InvalidDateExamples | backend/models/appointment.py:21-29 | a 31st in a 30-day month, month 13 and year 0 are rejected |
| Models.DaysInMonth | backend/models/appointment.py:26 | every month has 28 to 31 days |
| Models.StatusOrDefault | backend/appointment_service.py:75 | a missing or empty status becomes "Scheduled", any other is kept, and the result is a valid status |
| Text.ContainsIffOccurs | frontend/app/page.tsx:60-61 | `includes` holds iff the needle occurs at some position |
| Text.ParseIntOfIntToString | backend/main.py:291 | `int(str(n))` gives back n |
| Seqs.Filter | frontend/app/page.tsx:59 | the result holds exactly the elements that pass, and is empty iff none does; FilterCounts adds multiplicity |
| Seqs.FilterCounts | frontend/app/page.tsx:59 | each passing element is kept as many times as it occurs, each failing one never |
| Seqs.FilterIsSubsequence | frontend/app/page.tsx:59 | a filter keeps the order of what it keeps |
| Seqs.Distinct | frontend/app/page.tsx:108 | each element once, and every element of the list is in it |

## Left out

- Rendering, styling and animation (JSX markup, status colour classes, framer-motion), the landing page and the calendar widget are presentation only.
- `toLocaleDateString` in the timeline header, and computing `today` with `new Date()`: `today` is a parameter.
- The Blob, URL and anchor download steps of `exportToCSV`: only the CSV string is modelled.
- Apollo client wiring, loading and error states: network I/O.
- The GraphQL resolver shells, FastAPI, CORS and uvicorn setup, and the health endpoint with its `datetime.now()`: server plumbing and the clock.
- `uuid.uuid4()` and `datetime.now().isoformat()` in the service: the new id and `created_at` are parameters.
- AppointmentService.StoreEach: requires the given ids to be distinct, for the reason given for the constructor below.
- AppointmentService.Service.constructor: requires the fifteen given ids to be distinct, which uuid4 makes overwhelmingly likely but does not guarantee.
- AppointmentService.Service.constructor: validation of the seed entries by pydantic is not proved; their times and dates are taken as written.
- AppointmentService.Service.CreateAppointment: requires a valid `AppointmentCreate` (pydantic has validated it before the call); the ValueError raised by `validate_time` on input that fails pydantic is not modelled.
- AppointmentService.Service.UpdateAppointmentStatus: `model_copy` does not validate, so the store's invariant does not include a valid status; the model keeps any status string as Python does.
- `Lower` and `toLowerCase` / `.lower()`: only ASCII letters are folded; Unicode case folding is not modelled.
- JavaScript compares strings by UTF-16 code units; the model compares code points, which differ only outside the Basic Multilingual Plane.
- `parseInt`'s leniency towards leading whitespace, a sign, and trailing text after the digits is not modelled: a field is read only when it is all ASCII digits, otherwise it is NaN.
- `strptime` and the pydantic `\d` accept non-ASCII Unicode digits; the model accepts ASCII digits only.
- `int()` in `backend/main.py` accepts surrounding whitespace and underscores between digits; the model accepts an optional '-' followed by ASCII digits.
- The text of Python's built-in exceptions (`max()` of an empty list, `int()` of a non-number) is not matched exactly, only that an error is raised.
- `datetime` arithmetic: strptime's times fall on 1900-01-01 and an end time past midnight falls on a later day; the model counts minutes from 1900-01-01 00:00, which order the same way. `backend/main.py` models the OverflowError of an end outside years 1 to 9999 (`PyTime.AddMinutes`); the calendar date itself is not modelled.
- ConflictDetector.Detection: the OverflowError that `timedelta` addition would raise for a duration beyond the range of `datetime` is not modelled; every caller in `backend/appointment_service.py` passes durations pydantic has bounded to 15..180 minutes, for which it cannot occur.
- The sort: `list.sort` is Timsort; the model sorts by insertion sort, which gives the same result because a stable sort by a key has exactly one result.
