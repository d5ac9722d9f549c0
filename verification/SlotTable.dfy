/** A fixed array of per-process records, scanned by process id. */
module SlotTable {
  import opened Basics

  /** One record; pid 0 marks a free slot. */
  datatype Slot<T> = Slot(pid: nat, data: T)

  /** The first slot with that pid. */
  function SlotOf<T>(slots: seq<Slot<T>>, pid: nat): (i: Option<nat>)
    ensures match i
            case Some(k) => k < |slots| && slots[k].pid == pid && forall j :: 0 <= j < k ==> slots[j].pid != pid
            case None => forall j :: 0 <= j < |slots| ==> slots[j].pid != pid
  {
    if slots == [] then None
    else if slots[0].pid == pid then Some(0)
    else
      assert forall j :: 1 <= j < |slots| ==> slots[j] == slots[1..][j - 1];
      match SlotOf(slots[1..], pid)
      case Some(k) => Some(k + 1)
      case None => None
  }

  /** No process has two slots. */
  ghost predicate OnePerPid<T>(slots: seq<Slot<T>>) {
    forall i, j :: 0 <= i < j < |slots| && slots[i].pid == slots[j].pid ==> slots[i].pid == 0
  }

  /** Changing a slot does not affect where other processes are found, and the process in it is found there
    * if it is in no other. */
  lemma SlotOfUpdate<T>(slots: seq<Slot<T>>, i: nat, x: Slot<T>, q: nat)
    requires i < |slots|
    ensures q != x.pid && q != slots[i].pid ==> SlotOf(slots[i := x], q) == SlotOf(slots, q)
    ensures OnePerPid(slots[i := x]) && x.pid == q != 0 ==> SlotOf(slots[i := x], q) == Some(i)
    ensures OnePerPid(slots) && slots[i].pid == q != 0 && x.pid != q ==> SlotOf(slots[i := x], q) == None
  {
    var t := slots[i := x];
    var a, b := SlotOf(slots, q), SlotOf(t, q);
    if q != x.pid && q != slots[i].pid {
      assert a.Some? ==> t[a.value] == slots[a.value];
      assert b.Some? ==> t[b.value] == slots[b.value];
    } else if x.pid == q {
      assert t[i].pid == q;
    } else {
      assert b.Some? ==> t[b.value] == slots[b.value];
    }
  }

  /** zo_slot_of and yz_slot_of */
  method FindSlot<T>(slots: array<Slot<T>>, pid: nat) returns (i: Option<nat>)
    ensures i == SlotOf(slots[..], pid)
  {
    for k := 0 to slots.Length
      invariant forall j :: 0 <= j < k ==> slots[j].pid != pid
    {
      if slots[k].pid == pid {
        return Some(k);
      }
    }
    return None;
  }
}
