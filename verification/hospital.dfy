/**
 The hospital: four collections and the four operations over them.

 Admission, discharge and treatment are pure transitions returning the
 next state together with what the operation reports; listing changes
 nothing and returns only the rows. The operations keep the bookkeeping
 as implemented, quirks included: discharge frees the lowest occupied room rather
 than the departing patient's own room, discharge removes no queue entry
 (a discharged critical patient can still be treated), treatment leaves
 the record list's condition as it was, and the record list is kept in admission
 order, never sorted.
 */
module Hospital {
  import opened Patients
  import opened Rooms
  import opened Records

  /** Room table, admission-ordered records, the critical priority queue
      (a bag: its heap order is not modelled) and the stable FIFO queue. */
  datatype State = State(
    rooms: seq<bool>,
    records: seq<Patient>,
    critical: multiset<Patient>,
    stable: seq<Patient>)

  /** The state after an operation and what the operation reported. */
  datatype Step<O> = Step(next: State, out: O)

  /** `room` is the 0-based index; the console shows `room + 1`. */
  datatype AdmitOutcome = Admitted(room: nat) | NoRoomsAvailable

  datatype DischargeOutcome = Discharged(patient: Patient) | PatientNotFound

  datatype Listing = NoRecords | Rows(rows: seq<Patient>)

  datatype TreatOutcome = Treated(patient: Patient) | NoCriticalPatients

  /** Every record holds one room: occupied rooms and records are equal in
      number (so records never outnumber rooms). */
  predicate Valid(s: State) {
    Occupied(s.rooms) == |s.records|
  }

  /** Which patients each queue may hold (not their order). Admission
      routes exactly the "Critical" patients to the critical
      queue, and treatment only ever adds downgraded patients to the
      stable queue. */
  predicate QueuesRouted(s: State) {
    && (forall p :: p in s.critical ==> IsCritical(p))
    && (forall i :: 0 <= i < |s.stable| ==> !IsCritical(s.stable[i]))
  }

  /** A hospital with `totalRooms` vacant rooms and nobody in it. */
  function Init(totalRooms: int): (s: State)
    requires totalRooms >= 0
    ensures |s.rooms| == totalRooms
    ensures forall i :: 0 <= i < totalRooms ==> !s.rooms[i]
    ensures s.records == [] && s.critical == multiset{} && s.stable == []
    ensures Valid(s) && QueuesRouted(s)
  {
    var rooms := seq(totalRooms, _ => false);
    OccupiedEmpty(rooms);
    State(rooms, [], multiset{}, [])
  }

  /** Admit a patient into the lowest vacant room, or refuse when all are
      occupied. */
  function Admit(s: State, id: int, name: string, age: int, condition: string,
                 admissionDate: string): (r: Step<AdmitOutcome>)
    ensures r.out.NoRoomsAvailable? <==> forall i :: 0 <= i < |s.rooms| ==> s.rooms[i]
    ensures r.out.NoRoomsAvailable? ==> r.next == s
    ensures r.out.Admitted? ==>
      var p := Patient(id, name, age, condition, admissionDate);
      && IsLowest(s.rooms, false, r.out.room)
      && r.next.rooms == s.rooms[r.out.room := true]
      && r.next.records == s.records + [p]
      && (condition == "Critical" ==>
            r.next.critical == s.critical + multiset{p} && r.next.stable == s.stable)
      && (condition != "Critical" ==>
            r.next.critical == s.critical && r.next.stable == s.stable + [p])
  {
    var room := FindAvailableRoom(s.rooms);
    if room == -1 then
      Step(s, NoRoomsAvailable)
    else
      var p := Patient(id, name, age, condition, admissionDate);
      var next := State(
        s.rooms[room := true],
        s.records + [p],
        if IsCritical(p) then s.critical + multiset{p} else s.critical,
        if IsCritical(p) then s.stable else s.stable + [p]);
      Step(next, Admitted(room))
  }

  /** Discharge the first record with `id`, freeing the lowest occupied
      room, or report that no record has that identifier. */
  function Discharge(s: State, id: int): (r: Step<DischargeOutcome>)
    ensures r.out.PatientNotFound? <==> !HasId(s.records, id)
    ensures r.out.PatientNotFound? ==> r.next == s
    ensures r.next.critical == s.critical && r.next.stable == s.stable
    ensures |r.next.rooms| == |s.rooms|
    ensures r.out.Discharged? ==>
      exists k :: IsFirstWithId(s.records, id, k)
        && r.out.patient == s.records[k]
        && r.next.records == s.records[..k] + s.records[k + 1..]
    ensures r.out.Discharged? ==>
      forall i :: IsLowest(s.rooms, true, i) ==> r.next.rooms == s.rooms[i := false]
    ensures r.out.Discharged? && (forall i :: 0 <= i < |s.rooms| ==> !s.rooms[i]) ==>
      r.next.rooms == s.rooms
  {
    var k := IndexOfId(s.records, id);
    if k == -1 then
      Step(s, PatientNotFound)
    else
      var patient := s.records[k];
      var room := FindRoomByPatient(s.rooms, patient);
      var rooms := if room != -1 then s.rooms[room := false] else s.rooms;
      assert IsFirstWithId(s.records, id, k);
      Step(s.(rooms := rooms, records := RemoveAt(s.records, k)), Discharged(patient))
  }

  /** The records in admission order, or the "no records" signal. */
  function ListRecords(s: State): (r: Listing)
    ensures r.NoRecords? <==> s.records == []
    ensures r.Rows? ==> r.rows == s.records
  {
    if s.records == [] then NoRecords else Rows(s.records)
  }

  /** `pick` is a legal top of the critical queue: present, and ranked
      below no other entry by the comparator. */
  predicate IsTop(pick: Patient, queue: multiset<Patient>)
    ensures IsTop(pick, queue) <==>
      pick in queue && (IsCritical(pick) || forall q :: q in queue ==> !IsCritical(q))
  {
    pick in queue && forall q :: q in queue ==> !Less(pick, q)
  }

  /** Every non-empty queue has a legal top, so the restriction on `pick`
      in `TreatNextCritical` rules out no queue. */
  lemma TopExists(queue: multiset<Patient>)
    requires queue != multiset{}
    ensures exists pick :: IsTop(pick, queue)
  {
    if p :| p in queue && IsCritical(p) {
      assert IsTop(p, queue);
    } else {
      var p :| p in queue;
      assert IsTop(p, queue);
    }
  }

  /** Treat the critical patient the priority queue yields (`pick`, which
      the heap chooses among tied entries), downgrade them to "Stable" and
      append them to the stable queue. Records and rooms are left alone. */
  function TreatNextCritical(s: State, pick: Patient): (r: Step<TreatOutcome>)
    requires s.critical != multiset{} ==> IsTop(pick, s.critical)
    ensures r.out.NoCriticalPatients? <==> s.critical == multiset{}
    ensures r.out.NoCriticalPatients? ==> r.next == s
    ensures r.out.Treated? ==>
      && r.out.patient == pick
      && r.next.critical + multiset{pick} == s.critical
      && |r.next.stable| == |s.stable| + 1
      && r.next.stable[..|s.stable|] == s.stable
      && r.next.stable[|s.stable|] == pick.(condition := "Stable")
    ensures r.next.records == s.records && r.next.rooms == s.rooms
  {
    if s.critical == multiset{} then
      Step(s, NoCriticalPatients)
    else
      var next := s.(critical := s.critical - multiset{pick},
                     stable := s.stable + [Downgrade(pick)]);
      Step(next, Treated(pick))
  }

  // ---------------------------------------------------------------------
  // The room/record invariant and the queue routing, one lemma per operation

  /** Admission keeps the table size, keeps the invariants, and on success
      occupies exactly one more room. */
  lemma AdmitPreservesInvariant(s: State, id: int, name: string, age: int,
                                condition: string, admissionDate: string)
    ensures var r := Admit(s, id, name, age, condition, admissionDate);
      && |r.next.rooms| == |s.rooms|
      && (Valid(s) ==> Valid(r.next))
      && (QueuesRouted(s) ==> QueuesRouted(r.next))
      && (r.out.Admitted? ==> Occupied(r.next.rooms) == Occupied(s.rooms) + 1)
  {
    var r := Admit(s, id, name, age, condition, admissionDate);
    if r.out.Admitted? {
      OccupiedUpdate(s.rooms, r.out.room, true);
    }
  }

  /** With the invariant, admission is refused exactly when records fill
      every room; in particular it succeeds while fewer patients than rooms
      are recorded. */
  lemma AdmitRefusedIffFull(s: State, id: int, name: string, age: int,
                            condition: string, admissionDate: string)
    requires Valid(s)
    ensures Admit(s, id, name, age, condition, admissionDate).out.NoRoomsAvailable?
        <==> |s.records| == |s.rooms|
  {
    OccupiedFull(s.rooms);
  }

  /** Discharge keeps the table size and the invariants; a successful one
      removes one record and frees exactly one room, the lowest occupied
      one, which exists because the departing patient's record does. */
  lemma DischargePreservesInvariant(s: State, id: int)
    requires Valid(s)
    ensures var r := Discharge(s, id);
      && |r.next.rooms| == |s.rooms|
      && Valid(r.next)
      && (QueuesRouted(s) ==> QueuesRouted(r.next))
      && (r.out.Discharged? ==>
            && |r.next.records| == |s.records| - 1
            && Occupied(r.next.rooms) == Occupied(s.rooms) - 1
            && exists i :: IsLowest(s.rooms, true, i) && r.next.rooms == s.rooms[i := false])
  {
    var r := Discharge(s, id);
    if r.out.Discharged? {
      var k := IndexOfId(s.records, id);
      assert |s.records| > 0;
      OccupiedEmpty(s.rooms);
      var i := FindRoomByPatient(s.rooms, r.out.patient);
      assert IsLowest(s.rooms, true, i);
      OccupiedUpdate(s.rooms, i, false);
    }
  }

  /** Treatment keeps the invariants and moves exactly one entry from the
      critical queue to the stable queue. */
  lemma TreatPreservesInvariant(s: State, pick: Patient)
    requires s.critical != multiset{} ==> IsTop(pick, s.critical)
    ensures var r := TreatNextCritical(s, pick);
      && (Valid(s) ==> Valid(r.next))
      && (QueuesRouted(s) ==> QueuesRouted(r.next))
      && |r.next.critical| + |r.next.stable| == |s.critical| + |s.stable|
      && (r.out.Treated? ==> |r.next.critical| == |s.critical| - 1)
  {
    var r := TreatNextCritical(s, pick);
    if r.out.Treated? {
      assert s.critical == r.next.critical + multiset{pick};
    }
  }

  /** The comparator never separates two entries of the critical queue, so
      every entry is a legal top: the treatment order among critical
      patients is left entirely to the heap. */
  lemma AnyCriticalIsTop(s: State, p: Patient)
    requires QueuesRouted(s)
    ensures p in s.critical <==> IsTop(p, s.critical)
  {
  }

  // ---------------------------------------------------------------------
  // Single transitions, read off the contracts for a known room or record

  /** Admission with `i` the lowest vacant room takes room `i`. */
  lemma AdmitIntoLowest(s: State, id: int, name: string, age: int, condition: string,
                        admissionDate: string, i: int)
    requires IsLowest(s.rooms, false, i)
    ensures var r := Admit(s, id, name, age, condition, admissionDate);
      && r.out == Admitted(i)
      && r.next.rooms == s.rooms[i := true]
      && r.next.records == s.records + [Patient(id, name, age, condition, admissionDate)]
  {
    var r := Admit(s, id, name, age, condition, admissionDate);
    assert !r.out.NoRoomsAvailable? by { assert !s.rooms[i]; }
    LowestIsUnique(s.rooms, false, i, r.out.room);
  }

  /** Discharge of an id first recorded at `k` removes record `k`. */
  lemma DischargeFirstMatch(s: State, id: int, k: int)
    requires IsFirstWithId(s.records, id, k)
    ensures var r := Discharge(s, id);
      && r.out == Discharged(s.records[k])
      && r.next.records == s.records[..k] + s.records[k + 1..]
  {
    var r := Discharge(s, id);
    assert r.out.Discharged? by { assert HasId(s.records, id); }
    var j :| IsFirstWithId(s.records, id, j)
      && r.out.patient == s.records[j]
      && r.next.records == s.records[..j] + s.records[j + 1..];
    LowestIdUnique(s.records, id, j, k);
  }

  /** A discharge that finds its record frees room `i`, the lowest occupied. */
  lemma DischargeFreesRoom(s: State, id: int, i: int)
    requires HasId(s.records, id) && IsLowest(s.rooms, true, i)
    ensures Discharge(s, id).next.rooms == s.rooms[i := false]
  {
  }

  // ---------------------------------------------------------------------
  // Operations against each other

  /** Admitting a patient under a fresh identifier and discharging that
      identifier restores the record list, the occupied-room count and
      the outcome names the admitted patient; the queues keep the entry. */
  lemma AdmitThenDischarge(s: State, id: int, name: string, age: int,
                           condition: string, admissionDate: string)
    requires !HasId(s.records, id)
    requires Admit(s, id, name, age, condition, admissionDate).out.Admitted?
    ensures var a := Admit(s, id, name, age, condition, admissionDate);
      var d := Discharge(a.next, id);
      && d.out == Discharged(Patient(id, name, age, condition, admissionDate))
      && d.next.records == s.records
      && Occupied(d.next.rooms) == Occupied(s.rooms)
      && d.next.critical == a.next.critical && d.next.stable == a.next.stable
  {
    var a := Admit(s, id, name, age, condition, admissionDate);
    AdmitPreservesInvariant(s, id, name, age, condition, admissionDate);
    var n := |s.records|;
    assert IsFirstWithId(a.next.records, id, n);
    DischargeFirstMatch(a.next, id, n);
    assert a.next.records[..n] == s.records;
    // The admission left its room occupied, so the discharge frees one.
    var i := FindRoomByPatient(a.next.rooms, a.next.records[n]);
    assert a.next.rooms[a.out.room];
    DischargeFreesRoom(a.next, id, i);
    OccupiedUpdate(a.next.rooms, i, false);
  }

  /** A successful admission shows up as the last row of the listing,
      after the rows listed before it. */
  lemma ListingAfterAdmit(s: State, id: int, name: string, age: int,
                          condition: string, admissionDate: string)
    requires Admit(s, id, name, age, condition, admissionDate).out.Admitted?
    ensures var l := ListRecords(Admit(s, id, name, age, condition, admissionDate).next);
      && l.Rows?
      && l.rows == (if ListRecords(s).Rows? then ListRecords(s).rows else [])
                   + [Patient(id, name, age, condition, admissionDate)]
  {
  }

  // ---------------------------------------------------------------------
  // Worked scenarios

  /** Two rooms: two admissions fill them, a third is refused, a discharge
      makes room and the retried admission then succeeds. */
  lemma TwoRoomScenario()
    ensures var s0 := Init(2);
      var a1 := Admit(s0, 1, "A", 30, "Critical", "01-01-2024");
      var a2 := Admit(a1.next, 2, "B", 40, "Stable", "02-01-2024");
      var a3 := Admit(a2.next, 3, "C", 50, "Stable", "03-01-2024");
      var d1 := Discharge(a3.next, 1);
      var a4 := Admit(d1.next, 3, "C", 50, "Stable", "03-01-2024");
      && a1.out == Admitted(0) && a2.out == Admitted(1)
      && a3.out == NoRoomsAvailable && a3.next == a2.next
      && d1.out.Discharged?
      && a4.out == Admitted(0)
  {
    var s0 := Init(2);
    assert s0.rooms == [false, false];
    var a1 := Admit(s0, 1, "A", 30, "Critical", "01-01-2024");
    AdmitIntoLowest(s0, 1, "A", 30, "Critical", "01-01-2024", 0);
    assert a1.next.rooms == [true, false];
    var a2 := Admit(a1.next, 2, "B", 40, "Stable", "02-01-2024");
    AdmitIntoLowest(a1.next, 2, "B", 40, "Stable", "02-01-2024", 1);
    assert a2.next.rooms == [true, true];
    var a3 := Admit(a2.next, 3, "C", 50, "Stable", "03-01-2024");
    assert a3.out == NoRoomsAvailable;
    assert IsFirstWithId(a3.next.records, 1, 0);
    var d1 := Discharge(a3.next, 1);
    DischargeFirstMatch(a3.next, 1, 0);
    DischargeFreesRoom(a3.next, 1, 0);
    assert d1.next.rooms == [false, true];
    AdmitIntoLowest(d1.next, 3, "C", 50, "Stable", "03-01-2024", 0);
  }

  /** Discharging the patient admitted to room 1 frees room 0 instead:
      the room freed is the lowest occupied one, not the patient's own. */
  lemma DischargeFreesLowestRoom()
    ensures var a1 := Admit(Init(2), 1, "A", 30, "Stable", "01-01-2024");
      var a2 := Admit(a1.next, 2, "B", 40, "Stable", "02-01-2024");
      var d := Discharge(a2.next, 2);
      && a2.out == Admitted(1)
      && d.out.Discharged?
      && d.next.rooms == [false, true]
  {
    var s0 := Init(2);
    assert s0.rooms == [false, false];
    var a1 := Admit(s0, 1, "A", 30, "Stable", "01-01-2024");
    AdmitIntoLowest(s0, 1, "A", 30, "Stable", "01-01-2024", 0);
    assert a1.next.rooms == [true, false];
    var a2 := Admit(a1.next, 2, "B", 40, "Stable", "02-01-2024");
    AdmitIntoLowest(a1.next, 2, "B", 40, "Stable", "02-01-2024", 1);
    assert a2.next.rooms == [true, true];
    assert HasId(a2.next.records, 2) by { assert a2.next.records[1].id == 2; }
    DischargeFreesRoom(a2.next, 2, 0);
  }

  /** A discharged critical patient stays queued for treatment. */
  lemma DischargeLeavesStaleEntry()
    ensures var p := Patient(7, "A", 30, "Critical", "01-01-2024");
      var a := Admit(Init(1), 7, "A", 30, "Critical", "01-01-2024");
      var d := Discharge(a.next, 7);
      && d.out == Discharged(p)
      && d.next.records == []
      && p in d.next.critical
  {
    var s0 := Init(1);
    assert s0.rooms == [false];
    var a := Admit(s0, 7, "A", 30, "Critical", "01-01-2024");
    AdmitIntoLowest(s0, 7, "A", 30, "Critical", "01-01-2024", 0);
    assert IsFirstWithId(a.next.records, 7, 0);
    DischargeFirstMatch(a.next, 7, 0);
  }

  /** The listing follows admission order even when admission dates run
      backwards: nothing sorts it by date. */
  lemma ListingNotSortedByDate()
    ensures var a1 := Admit(Init(2), 1, "A", 30, "Stable", "02-01-2024");
      var a2 := Admit(a1.next, 2, "B", 40, "Stable", "01-01-2024");
      var l := ListRecords(a2.next);
      && l.Rows? && |l.rows| == 2
      && l.rows[0].admissionDate == "02-01-2024"
      && l.rows[1].admissionDate == "01-01-2024"
  {
    var s0 := Init(2);
    assert s0.rooms == [false, false];
    var a1 := Admit(s0, 1, "A", 30, "Stable", "02-01-2024");
    AdmitIntoLowest(s0, 1, "A", 30, "Stable", "02-01-2024", 0);
    assert a1.next.rooms == [true, false];
    AdmitIntoLowest(a1.next, 2, "B", 40, "Stable", "01-01-2024", 1);
  }
}
