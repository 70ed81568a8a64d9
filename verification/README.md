# Hospital patient management: a verified model

A Dafny model of the `Hospital` class of a small console utility for hospital
bookkeeping. The class owns four collections:

- a fixed-size room-occupancy table;
- an admission-ordered list of patient records;
- a priority queue of critical patients;
- a FIFO queue of stable patients.

It offers four operations: admit a patient, discharge a patient by
identifier, list the records, and treat the next critical patient.

The model is functional. `Hospital.State` is an immutable value holding:

- the room table as `seq<bool>` (`true` = occupied);
- the records as `seq<Patient>`;
- the critical queue as `multiset<Patient>`;
- the stable queue as `seq<Patient>`.

`Admit`, `Discharge` and `TreatNextCritical` are pure functions returning
`Step(next, out)`: the next state plus what the operation reports. This makes
the "changes nothing" promises of the error paths real statements about the
returned state. `ListRecords` returns only a `Listing`, because
`displayPatientRecords` (Hospital.cpp:79-94) changes nothing.

The modules follow the parts of `Hospital.cpp`:

- `Patients` (patients.dfy): the `Patient` record and the priority queue's comparator.
- `Rooms` (rooms.dfy): the two room scans and the occupied-room count.
- `Records` (records.dfy): the first-match lookup by identifier and the in-place erase.
- `Hospital` (hospital.dfy): the state, the four operations, the invariants,
  the lemmas relating operations, and worked scenarios.

The invariant is `Valid`: the number of occupied rooms equals the number of
records. It holds initially and every operation preserves it. Because of it, a
successful discharge always finds an occupied room to free.

A second invariant is `QueuesRouted`, about which patients each queue may
hold, not their order. The critical queue holds only patients
whose condition is exactly `"Critical"`, and the stable queue holds none. As a
consequence, the comparator never separates two critical-queue entries.

The model keeps the code's behaviour even where that behaviour looks
unintended:

- discharge frees the lowest-index occupied room, not the departing patient's own room;
- discharge removes no queue entry, so a discharged critical patient can still be treated and moved to the stable queue;
- treatment does not update the condition stored in the record list.

The comment above `displayPatientRecords` (Hospital.cpp:78) says "sorted by
admission date", but the code lists records in admission order. The model
follows the code (`ListingNotSortedByDate`).

The critical queue is a `std::priority_queue` whose comparator ties all
critical patients, so `top()` may yield any of them. The heap's choice is the parameter `pick` of `TreatNextCritical`. It is
constrained only to be a legal top, meaning present in the queue and ranked
below no entry by `operator<`.

## Model

| member | source | states |
|---|---|---|
| Patients.Less | Hospital.cpp:19-21 | `operator<`: one patient ranks strictly below another exactly when its two-level rank (1 for "Critical", 0 otherwise) is lower |
| Patients.LessIsStrictWeakOrder | Hospital.cpp:19-21 | `operator<` is irreflexive, asymmetric and transitive, and its ties are transitive: it is the strict weak ordering a priority queue needs |
| Patients.TiedIffSameRank | Hospital.cpp:19-21 | the comparator has two ranks: two patients tie exactly when both or neither have condition "Critical" |
| Patients.Downgrade | Hospital.cpp:108 | after treatment the patient's condition is exactly "Stable" (so no longer critical); id, name, age and admission date are kept |
| Rooms.FirstFrom | Hospital.cpp:114-121 | the upward scan returns -1 exactly when no room from the start index is in the wanted state, else the first such room |
| Rooms.FindAvailableRoom | Hospital.cpp:114-121 | returns -1 exactly when every room is occupied, otherwise the lowest vacant room |
| Rooms.FindRoomByPatient | Hospital.cpp:124-131 | returns -1 exactly when every room is vacant, otherwise the lowest occupied room, whoever the patient is |
| Rooms.OccupiedIsMultiplicity | Hospital.cpp:30 | the occupied-room count equals the number of occupied flags in the table |
| Rooms.OccupiedUpdate | Hospital.cpp:44 | writing one room's flag changes the occupied count by the difference between the new and old flag |
| Rooms.OccupiedFull | Hospital.cpp:114-121 | the count equals the table size exactly when no room is vacant |
| Rooms.OccupiedEmpty | Hospital.cpp:124-131 | the count is zero exactly when no room is occupied |
| Records.IndexOfIdFrom | Hospital.cpp:60-61 | the scan from a start position returns -1 exactly when no record from there on has the id, else the first such position |
| Records.IndexOfId | Hospital.cpp:60-61 | -1 exactly when no record has the id, otherwise the position of the FIRST record with it |
| Records.RemoveAt | Hospital.cpp:67 | erasing one record shortens the list by one, keeps the order of the others and removes exactly that element from the bag of records |
| Records.RemoveFirstIdIsRemoveAt | Hospital.cpp:60-69 | the positional erase at the first match agrees with element-wise removal of the first record with the id; with no match nothing is removed |
| Hospital.Init | Hospital.cpp:33 | `totalRooms` vacant rooms, no records, both queues empty; both invariants hold |
| Hospital.Admit | Hospital.cpp:36-54 | refuses exactly when every room is occupied, and then leaves the state unchanged. Otherwise it occupies the lowest vacant room and appends the patient to the records. The patient goes to the critical queue if the condition is exactly "Critical", else to the stable queue. Nothing else changes |
| Hospital.Discharge | Hospital.cpp:57-76 | reports not-found exactly when no record has the id, and then changes nothing. Otherwise it removes only the first record with the id, keeping the others in order, and frees the lowest occupied room. Both queues are left unchanged |
| Hospital.ListRecords | Hospital.cpp:79-94 | the no-records signal exactly when there are no records, otherwise all records in admission order |
| Hospital.TreatNextCritical | Hospital.cpp:97-110 | with an empty critical queue it reports so and changes nothing. Otherwise it removes one legal top from the critical queue and appends it, downgraded to "Stable", to the stable queue. Records and rooms are untouched |
| Hospital.AdmitPreservesInvariant | Hospital.cpp:37-52 | admission keeps the table size and both invariants; a successful admission occupies exactly one more room |
| Hospital.AdmitRefusedIffFull | Hospital.cpp:37-41 | under the invariant, admission is refused exactly when records fill every room, so it succeeds while fewer patients than rooms are recorded |
| Hospital.DischargePreservesInvariant | Hospital.cpp:60-69 | discharge keeps the table size and both invariants. A successful discharge removes one record and frees exactly one room, the lowest occupied one, which exists whenever a record does |
| Hospital.TreatPreservesInvariant | Hospital.cpp:103-109 | treatment keeps both invariants and moves exactly one entry from the critical queue to the stable queue |
| Hospital.IsTop | Hospital.cpp:103 | which entry `top()` may yield: one present in the queue that is critical, or any entry when no entry is critical |
| Hospital.TopExists | Hospital.cpp:98-104 | every non-empty critical queue has an entry `top()` may yield, so the restriction on `pick` excludes no queue |
| Hospital.AnyCriticalIsTop | Hospital.cpp:46-47 | every critical-queue entry is a legal top, so the order of treatment among critical patients is unconstrained |
| Hospital.AdmitThenDischarge | Hospital.cpp:43-69 | from any state with a vacant room, admitting under a fresh id and then discharging that id returns the admitted patient and restores the records and the occupied count. The queue entry stays behind |
| Hospital.ListingAfterAdmit | Hospital.cpp:52 | a successful admission appears as the last row of the listing, after the earlier rows |
| Hospital.TwoRoomScenario | Hospital.cpp:36-76 | with two rooms, two admissions take rooms 0 and 1 and a third is refused without change. After a discharge the retried admission takes room 0 |
| Hospital.DischargeFreesLowestRoom | Hospital.cpp:124-131 | discharging the patient admitted to room 1 frees room 0 instead |
| Hospital.DischargeLeavesStaleEntry | Hospital.cpp:57-76 | a discharged critical patient stays in the critical queue |
| Hospital.ListingNotSortedByDate | Hospital.cpp:78-93 | the listing follows admission order even when admission dates run backwards |

## Left out

- `main` and all console input and output (Hospital.cpp:135-194): the menu loop, prompts and `cin` parsing are an input shell, not logic.
- The status lines printed by each operation. The operation's outcome value carries what they report: the 0-based room index (shown as index + 1), the discharged or treated patient, or the error kind.
- The `setw` column formatting of the listing (Hospital.cpp:85-93). The listing is modelled as the record sequence itself.
- The binary-heap layout of `std::priority_queue`. The critical queue is a multiset. Which tied entry `top()` yields is the `pick` parameter of `TreatNextCritical`, restricted to legal tops.
- Hospital.Init: requires `totalRooms >= 0`, because a vector of negative size is not a valid table.
- Integer widths: ids, ages and room indices are unbounded integers. The `size_t`-to-`int` narrowing in the room scans is not modelled, because `totalRooms` is an `int` (Hospital.cpp:33): every room index fits in an `int`, and the displayed `roomNumber + 1` (Hospital.cpp:53) cannot overflow. Ids and ages are only copied, never computed with.
- The room table holds `bool` rather than `int`. The code only ever stores 0 and 1, so `rooms[i] == 0` is "vacant" and `rooms[i] == 1` is "occupied".
