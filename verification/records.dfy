/**
 The insertion-ordered record list and the discharge lookup over it.

 Discharge walks the list from the front, stops at the first record whose
 identifier matches and erases that one record in place; later duplicates
 of the same identifier stay.
 */
module Records {
  import opened Patients

  /** `k` is the position of the first record carrying `id`. */
  predicate IsFirstWithId(records: seq<Patient>, id: int, k: int) {
    && 0 <= k < |records|
    && records[k].id == id
    && forall j :: 0 <= j < k ==> records[j].id != id
  }

  predicate HasId(records: seq<Patient>, id: int) {
    exists k :: 0 <= k < |records| && records[k].id == id
  }

  /** Scan from position `from` for the first record with `id`, or -1. */
  function IndexOfIdFrom(records: seq<Patient>, id: int, from: nat): (r: int)
    requires from <= |records|
    ensures r == -1 <==> forall k :: from <= k < |records| ==> records[k].id != id
    ensures r != -1 ==> from <= r < |records| && records[r].id == id
    ensures r != -1 ==> forall j :: from <= j < r ==> records[j].id != id
    decreases |records| - from
  {
    if from == |records| then -1
    else if records[from].id == id then from
    else IndexOfIdFrom(records, id, from + 1)
  }

  /** The position of the first record with `id`, or -1 when absent. */
  function IndexOfId(records: seq<Patient>, id: int): (r: int)
    ensures r == -1 <==> !HasId(records, id)
    ensures r != -1 ==> IsFirstWithId(records, id, r)
  {
    IndexOfIdFrom(records, id, 0)
  }

  /** Erase position `k`, keeping the order of everything else. */
  function RemoveAt<T>(s: seq<T>, k: nat): (r: seq<T>)
    requires k < |s|
    ensures |r| == |s| - 1
    ensures forall j :: 0 <= j < k ==> r[j] == s[j]
    ensures forall j :: k <= j < |r| ==> r[j] == s[j + 1]
    ensures multiset(r) + multiset{s[k]} == multiset(s)
  {
    assert s == s[..k] + [s[k]] + s[k + 1..];
    s[..k] + s[k + 1..]
  }

  /** An independent, element-by-element statement of "erase the first
      record with `id`": keep records until the first match, drop it, keep
      the rest. */
  function RemoveFirstId(records: seq<Patient>, id: int): seq<Patient>
  {
    if records == [] then []
    else if records[0].id == id then records[1..]
    else [records[0]] + RemoveFirstId(records[1..], id)
  }

  /** The positional erase at the first match is the element-wise removal,
      and with no match the element-wise removal changes nothing. */
  lemma {:induction false} RemoveFirstIdIsRemoveAt(records: seq<Patient>, id: int)
    ensures IndexOfId(records, id) == -1 ==> RemoveFirstId(records, id) == records
    ensures IndexOfId(records, id) != -1 ==>
      RemoveFirstId(records, id) == RemoveAt(records, IndexOfId(records, id))
  {
    var k := IndexOfId(records, id);
    if records == [] {
    } else if records[0].id == id {
      assert k == 0;
      assert RemoveAt(records, 0) == records[1..];
    } else {
      var tail := records[1..];
      RemoveFirstIdIsRemoveAt(tail, id);
      var kt := IndexOfId(tail, id);
      IndexOfIdPastHead(records, id);
      assert RemoveFirstId(records, id) == [records[0]] + RemoveFirstId(tail, id);
      if kt == -1 {
        assert records == [records[0]] + tail;
      } else {
        assert k == kt + 1;
        RemoveAtCons(records, kt);
      }
    }
  }

  /** Past a non-matching head, the first match is one further along in the
      whole list than in its tail, or absent from both. */
  lemma IndexOfIdPastHead(records: seq<Patient>, id: int)
    requires records != [] && records[0].id != id
    ensures IndexOfId(records[1..], id) == -1 ==> IndexOfId(records, id) == -1
    ensures IndexOfId(records[1..], id) != -1 ==>
      IndexOfId(records, id) == IndexOfId(records[1..], id) + 1
  {
    var tail := records[1..];
    var k := IndexOfId(records, id);
    var kt := IndexOfId(tail, id);
    if kt != -1 {
      assert IsFirstWithId(records, id, kt + 1);
      LowestIdUnique(records, id, k, kt + 1);
    }
  }

  lemma LowestIdUnique(records: seq<Patient>, id: int, i: int, k: int)
    requires IsFirstWithId(records, id, i) && IsFirstWithId(records, id, k)
    ensures i == k
  {
  }

  lemma RemoveAtCons(s: seq<Patient>, kt: nat)
    requires kt + 1 < |s|
    ensures RemoveAt(s, kt + 1) == [s[0]] + RemoveAt(s[1..], kt)
  {
    assert s[..kt + 1] == [s[0]] + s[1..][..kt];
    assert s[kt + 2..] == s[1..][kt + 1..];
  }
}
