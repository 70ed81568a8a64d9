/**
 The room-occupancy table: one flag per room, `true` for occupied.

 The table is sized once and afterwards only toggled. Both scans the
 hospital uses walk it from room 0 upwards and stop at the first room in
 the wanted state, answering -1 when there is none.
 */
module Rooms {

  /** `i` is the lowest room whose flag is `v`. */
  predicate IsLowest(rooms: seq<bool>, v: bool, i: int) {
    && 0 <= i < |rooms|
    && rooms[i] == v
    && forall j :: 0 <= j < i ==> rooms[j] != v
  }

  /** Scan from room `from` upwards for the first room whose flag is `v`. */
  function FirstFrom(rooms: seq<bool>, v: bool, from: nat): (r: int)
    requires from <= |rooms|
    ensures r == -1 || from <= r < |rooms|
    ensures r == -1 <==> forall i :: from <= i < |rooms| ==> rooms[i] != v
    ensures r != -1 ==> rooms[r] == v && forall i :: from <= i < r ==> rooms[i] != v
    decreases |rooms| - from
  {
    if from == |rooms| then -1
    else if rooms[from] == v then from
    else FirstFrom(rooms, v, from + 1)
  }

  /** The lowest vacant room, or -1 when every room is occupied. */
  function FindAvailableRoom(rooms: seq<bool>): (r: int)
    ensures r == -1 <==> forall i :: 0 <= i < |rooms| ==> rooms[i]
    ensures r != -1 ==> IsLowest(rooms, false, r)
  {
    FirstFrom(rooms, false, 0)
  }

  /** The room freed on discharge: the lowest OCCUPIED room, whoever is in
      it. No patient-to-room mapping is stored, so the patient plays no part. */
  function FindRoomByPatient<P>(rooms: seq<bool>, patient: P): (r: int)
    ensures r == -1 <==> forall i :: 0 <= i < |rooms| ==> !rooms[i]
    ensures r != -1 ==> IsLowest(rooms, true, r)
  {
    FirstFrom(rooms, true, 0)
  }

  /** Only one room can be the lowest in a given state. */
  lemma LowestIsUnique(rooms: seq<bool>, v: bool, i: int, k: int)
    requires IsLowest(rooms, v, i) && IsLowest(rooms, v, k)
    ensures i == k
  {
  }

  /** Number of occupied rooms. */
  function Occupied(rooms: seq<bool>): (n: nat)
    ensures n <= |rooms|
  {
    if |rooms| == 0 then 0
    else (if rooms[0] then 1 else 0) + Occupied(rooms[1..])
  }

  /** The count agrees with the multiplicity of `true` in the table. */
  lemma {:induction false} OccupiedIsMultiplicity(rooms: seq<bool>)
    ensures Occupied(rooms) == multiset(rooms)[true]
  {
    if |rooms| > 0 {
      assert rooms == [rooms[0]] + rooms[1..];
      OccupiedIsMultiplicity(rooms[1..]);
    }
  }

  /** Setting one flag moves the count by the difference of the flags. */
  lemma {:induction false} OccupiedUpdate(rooms: seq<bool>, i: nat, b: bool)
    requires i < |rooms|
    ensures Occupied(rooms[i := b]) + (if rooms[i] then 1 else 0)
         == Occupied(rooms) + (if b then 1 else 0)
  {
    if i > 0 {
      assert rooms[i := b][1..] == rooms[1..][i - 1 := b];
      OccupiedUpdate(rooms[1..], i - 1, b);
    } else {
      assert rooms[i := b][1..] == rooms[1..];
    }
  }

  /** The count reaches the table size exactly when every room is occupied. */
  lemma {:induction false} OccupiedFull(rooms: seq<bool>)
    ensures Occupied(rooms) == |rooms| <==> forall i :: 0 <= i < |rooms| ==> rooms[i]
  {
    if |rooms| > 0 {
      OccupiedFull(rooms[1..]);
      assert forall i :: 1 <= i < |rooms| ==> rooms[i] == rooms[1..][i - 1];
    }
  }

  /** The count is zero exactly when every room is vacant. */
  lemma {:induction false} OccupiedEmpty(rooms: seq<bool>)
    ensures Occupied(rooms) == 0 <==> forall i :: 0 <= i < |rooms| ==> !rooms[i]
  {
    if |rooms| > 0 {
      OccupiedEmpty(rooms[1..]);
      assert forall i :: 1 <= i < |rooms| ==> rooms[i] == rooms[1..][i - 1];
    }
  }
}
