/**
 Patient records and the ordering the critical queue is built on.

 A patient's condition is free text typed by the operator; only the exact
 string "Critical" routes a patient to the critical queue, and treatment
 rewrites the condition to "Stable".
 */
module Patients {

  const CriticalLabel: string := "Critical"
  const StableLabel: string := "Stable"

  /** One admitted patient. Identifiers are not checked for uniqueness. */
  datatype Patient = Patient(
    id: int,
    name: string,
    age: int,
    condition: string,
    admissionDate: string)

  predicate IsCritical(p: Patient) {
    p.condition == CriticalLabel
  }

  /** A patient's rank in the queue: 1 for "Critical", 0 for anything else. */
  function Rank(p: Patient): nat {
    if p.condition == CriticalLabel then 1 else 0
  }

  /** The priority queue's comparator: `a` ranks strictly below `b` exactly
      when `b` is critical and `a` is not. */
  predicate Less(a: Patient, b: Patient)
    ensures Less(a, b) <==> Rank(a) < Rank(b)
  {
    a.condition != CriticalLabel && b.condition == CriticalLabel
  }

  /** Two patients the comparator cannot separate. */
  predicate Tied(a: Patient, b: Patient) {
    !Less(a, b) && !Less(b, a)
  }

  /** The comparator is a strict weak ordering, which is what a binary-heap
      priority queue requires of its `<`. */
  lemma LessIsStrictWeakOrder(a: Patient, b: Patient, c: Patient)
    ensures !Less(a, a)
    ensures Less(a, b) ==> !Less(b, a)
    ensures Less(a, b) && Less(b, c) ==> Less(a, c)
    ensures Tied(a, b) && Tied(b, c) ==> Tied(a, c)
  {
  }

  /** The comparator has exactly two ranks: it ties two patients precisely
      when both are critical or both are not. */
  lemma TiedIffSameRank(a: Patient, b: Patient)
    ensures Tied(a, b) <==> (IsCritical(a) <==> IsCritical(b))
  {
  }

  /** Treatment's downgrade: the same patient with condition "Stable". */
  function Downgrade(p: Patient): (q: Patient)
    ensures !IsCritical(q) && q.condition == StableLabel
    ensures q.id == p.id && q.name == p.name && q.age == p.age
    ensures q.admissionDate == p.admissionDate
  {
    p.(condition := StableLabel)
  }
}
