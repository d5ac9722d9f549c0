/** What each step of the grant protocol changes, and that it changes nothing else: stated on the events alone,
  * without the functions that carry the steps out. */
module GrantLaws {
  import opened Basics
  import opened FileLoadPolicy
  import opened GrantProtocol
  import opened GrantProofs
  import opened GrantTheorems
  import opened GrantTimers

  /** The step takes a listed entry off the pending list: an explicit restore or a publication of its own process, or
    * its own timer. */
  predicate Takes(s: State, ev: Event, e: EntryId)
    requires e in s.table.entries
  {
    || (ev.Release? && ev.tgid == s.table.entries[e].tgid)
    || (ev.Publish? && ev.tgid == s.table.entries[e].tgid)
    || ev == TimeoutLock(e)
  }

  /** Every listed entry is allocated. */
  lemma Listed(s: State)
    requires Inv(s)
    ensures forall e :: e in s.table.list ==> e in s.table.entries
  {
    forall e | e in s.table.list
      ensures e in s.table.entries
    {
      assert EntryOk(s, e);
    }
  }

  // ---------- the list ----------

  /** Exactly the taken entries leave the list, and exactly a publication's own entry comes onto it. */
  lemma ListLaw(s: State, ev: Event, e: EntryId)
    requires Inv(s) && Enabled(s, ev)
    ensures e in s.table.list ==> e in s.table.entries
    ensures e in Apply(s, ev).table.list <==>
            (e in s.table.list && !Takes(s, ev, e)) || (ev.Publish? && e == s.table.next)
  {
    Listed(s);
    Subject(s, ev);
    hide CallOk, RecordOk, ListPairOk, CallPairOk, InvLog, WithTgid, WithoutTgid, Removed;
  }

  /** a stands before b. */
  predicate Before(list: seq<EntryId>, a: EntryId, b: EntryId): (holds: bool)
    ensures holds ==> a in list && b in list
  {
    list != [] && ((list[0] == a && b in list[1..]) || Before(list[1..], a, b))
  }

  lemma {:induction false} FilterOrder(entries: map<EntryId, Entry>, list: seq<EntryId>, tgid: Pid,
                                       a: EntryId, b: EntryId)
    requires forall e :: e in list ==> e in entries
    ensures Before(WithTgid(entries, list, tgid), a, b) <==>
            Before(list, a, b) && entries[a].tgid == tgid && entries[b].tgid == tgid
    ensures Before(WithoutTgid(entries, list, tgid), a, b) <==>
            Before(list, a, b) && entries[a].tgid != tgid && entries[b].tgid != tgid
  {
    if list != [] {
      FilterOrder(entries, list[1..], tgid, a, b);
      Filtered(entries, list[1..], tgid, b);
    }
  }

  lemma {:induction false} Filtered(entries: map<EntryId, Entry>, list: seq<EntryId>, tgid: Pid, b: EntryId)
    requires forall e :: e in list ==> e in entries
    ensures b in WithTgid(entries, list, tgid) <==> b in list && entries[b].tgid == tgid
    ensures b in WithoutTgid(entries, list, tgid) <==> b in list && entries[b].tgid != tgid
  {
    if list != [] {
      Filtered(entries, list[1..], tgid, b);
    }
  }

  lemma {:induction false} RemovedOrder(list: seq<EntryId>, e: EntryId, a: EntryId, b: EntryId)
    requires NoDup(list)
    ensures Before(Removed(list, e), a, b) <==> Before(list, a, b) && a != e && b != e
  {
    if list != [] {
      assert list == [list[0]] + list[1..] && list[0] !in list[1..];
      RemovedElements(list[1..], e);
      RemovedOrder(list[1..], e, a, b);
    }
  }

  lemma {:induction false} LastOrder(list: seq<EntryId>, last: EntryId, a: EntryId, b: EntryId)
    requires last !in list
    ensures Before(list + [last], a, b) <==> Before(list, a, b) || (a in list && b == last)
  {
    if list == [] {
      assert list + [last] == [last] && [last][1..] == [];
    } else {
      assert (list + [last])[1..] == list[1..] + [last];
      LastOrder(list[1..], last, a, b);
    }
  }

  /** The entries that stay keep their order, and a new one comes behind all others. */
  lemma OrderLaw(s: State, ev: Event, a: EntryId, b: EntryId)
    requires Inv(s) && Enabled(s, ev)
    requires a in Apply(s, ev).table.list && b in Apply(s, ev).table.list
    ensures Before(Apply(s, ev).table.list, a, b) <==>
            Before(s.table.list, a, b) || (ev.Publish? && b == s.table.next && a != b)
  {
    Listed(s);
    Subject(s, ev);
    match ev
    case Publish(_, tgid) =>
      FilterOrder(s.table.entries, s.table.list, tgid, a, b);
      LastOrder(WithoutTgid(s.table.entries, s.table.list, tgid), s.table.next, a, b);
    case Release(_, tgid) => FilterOrder(s.table.entries, s.table.list, tgid, a, b);
    case TimeoutLock(e) => RemovedOrder(s.table.list, e, a, b);
    case _ =>
  }

  // ---------- the entries ----------

  /** The entry whose timer the step is about, and where it leaves the timer. */
  ghost function TimerAfter(s: State, ev: Event, e: EntryId): Timer
    requires Enabled(s, ev) && e in s.table.entries
  {
    var timer := s.table.entries[e].timer;
    match ev
    case Arm(c) => if s.calls[c].e == e then Armed else timer
    case Cancel(c) => if s.calls[c].todo[0] == e then Idle else timer
    case Fire(x) => if x == e then Running else timer
    case TimeoutLock(x) => if x != e then timer else if e in s.table.list then Claimed else Idle
    case TimeoutRestore(x, _) => if x == e then Restored else timer
    case _ => timer
  }

  /** An entry keeps its process for life; it is pending exactly while it is listed; its record is cleared exactly when
    * it is passed to restore; its timer changes exactly by the steps about it; and it stays allocated unless it is
    * the one that is freed. */
  lemma EntryLaw(s: State, ev: Event, e: EntryId)
    requires Inv(s) && Enabled(s, ev) && e in s.table.entries
    ensures var s' := Apply(s, ev);
            && (e in s'.table.entries <==> !Frees(s, ev, e))
            && (e in s'.table.entries ==>
                  var x, x' := s.table.entries[e], s'.table.entries[e];
                  && x'.tgid == x.tgid && (x'.pending <==> e in s'.table.list) && x'.timer == TimerAfter(s, ev, e)
                  && x'.state == if Restoring(s, ev).Some? && RestoredHolder(s, ev) == ByEntry(e) then NO_GRANT
                                 else x.state)
  {
    ListLaw(s, ev, e);
    assert EntryOk(s, e);
    Subject(s, ev);
    hide CallOk, RecordOk, ListPairOk, CallPairOk, InvLog, WithTgid, WithoutTgid, Removed;
  }

  /** The only new entry is the one that a publication puts on the list, with the grant of its call. */
  lemma NewEntryLaw(s: State, ev: Event, e: EntryId)
    requires Inv(s) && Enabled(s, ev) && e !in s.table.entries
    ensures var s' := Apply(s, ev);
            if ev.Publish? && e == s.table.next then
              e in s'.table.entries && s'.table.entries[e] == Entry(ev.tgid, s.calls[ev.c].g, true, Idle)
            else e !in s'.table.entries
  {
    hide InvStructure, InvLog;
  }

  // ---------- who has an entry ----------

  /** A taken entry goes to the call that took it, or to its timer; every other one stays with whom it was. */
  lemma OwnerLaw(s: State, ev: Event, e: EntryId)
    requires Inv(s) && Enabled(s, ev) && e in s.table.entries && !Frees(s, ev, e)
    ensures e in s.owner && e in Apply(s, ev).owner
    ensures Apply(s, ev).owner[e] ==
            if e in s.table.list && Takes(s, ev, e) then (if ev.TimeoutLock? then OfTimeout else OfCall(ev.c))
            else s.owner[e]
  {
    assert EntryOk(s, e);
    Subject(s, ev);
    hide CallOk, RecordOk, ListPairOk, CallPairOk, InvLog, WithTgid, WithoutTgid, Removed;
  }

  // ---------- the calls ----------

  /** The call that takes a step; None for timers and batches. */
  function Caller(ev: Event): Option<CallId> {
    if ev.OfTimer() || ev.Patch? then None else Some(ev.c)
  }

  /** No other call changes. */
  lemma OtherCallsLaw(s: State, ev: Event, d: CallId)
    requires Enabled(s, ev) && Caller(ev) != Some(d)
    ensures d in Apply(s, ev).calls <==> d in s.calls
    ensures d in s.calls ==> Apply(s, ev).calls[d] == s.calls[d]
  {
  }

  /** An explicit restore and a publication have to work off exactly the listed entries of their own process, each
    * once and in the order of the list. */
  lemma TodoLaw(s: State, ev: Event, a: EntryId, b: EntryId)
    requires Inv(s) && Enabled(s, ev) && (ev.Release? || ev.Publish?)
    ensures var s' := Apply(s, ev);
            && ev.c in s'.calls
            && s'.calls[ev.c] == (if ev.Release? then Draining(s'.calls[ev.c].Todo(), AtCancel, None)
                                  else Arming(s.table.next, s'.calls[ev.c].Todo()))
            && NoDup(s'.calls[ev.c].Todo())
            && (a in s'.calls[ev.c].Todo() <==>
                a in s.table.list && a in s.table.entries && s.table.entries[a].tgid == ev.tgid)
            && (a in s'.calls[ev.c].Todo() && b in s'.calls[ev.c].Todo() ==>
                  (Before(s'.calls[ev.c].Todo(), a, b) <==> Before(s.table.list, a, b)))
  {
    Listed(s);
    Subject(s, ev);
    FilterOrder(s.table.entries, s.table.list, ev.tgid, a, b);
  }

  // ---------- whole runs ----------

  /** No step of the run takes the entry while it is listed. */
  ghost predicate NeverTaken(s: State, evs: seq<Event>, e: EntryId)
    requires IsRun(s, evs)
    decreases |evs|
  {
    evs == [] || (!(e in s.table.entries && Takes(s, evs[0], e)) && NeverTaken(Apply(s, evs[0]), evs[1..], e))
  }

  /** Along any run, a listed entry is listed as long as neither its timer nor an explicit restore or a publication of
    * its own process takes it: no other process can make it lose its grant. */
  lemma {:induction false} ListedIffNeverTaken(s: State, evs: seq<Event>, e: EntryId)
    requires Inv(s) && IsRun(s, evs) && e in s.table.list
    ensures e in After(s, evs).table.list <==> NeverTaken(s, evs, e)
    ensures e in s.table.entries
    ensures e in After(s, evs).table.entries ==>
              After(s, evs).table.entries[e].tgid == s.table.entries[e].tgid
    decreases |evs|
  {
    Listed(s);
    if evs != [] {
      var t := Apply(s, evs[0]);
      StepKeeps(s, evs[0]);
      ListLaw(s, evs[0], e);
      OldEntry(s, e);
      if e in t.table.list {
        Listed(t);
        EntryLaw(s, evs[0], e);
        hide *;
        ListedIffNeverTaken(t, evs[1..], e);
      } else {
        StaysOff(t, evs[1..], e);
        ProcessLaw(s, evs, e);
      }
    }
  }

  /** An entry that is off the list does not come back. */
  lemma {:induction false} StaysOff(s: State, evs: seq<Event>, e: EntryId)
    requires Inv(s) && IsRun(s, evs) && e !in s.table.list && e < s.table.next
    ensures e !in After(s, evs).table.list
    decreases |evs|
  {
    if evs != [] {
      StepKeeps(s, evs[0]);
      ListLaw(s, evs[0], e);
      assert Apply(s, evs[0]).table.next >= s.table.next;
      hide *;
      StaysOff(Apply(s, evs[0]), evs[1..], e);
    }
  }

  lemma OldEntry(s: State, e: EntryId)
    requires Inv(s) && e in s.table.entries
    ensures e < s.table.next
  {
    assert HistoryOk(s, e);
  }

  /** An entry belongs to one process for life. */
  lemma {:induction false} ProcessLaw(s: State, evs: seq<Event>, e: EntryId)
    requires Inv(s) && IsRun(s, evs) && e in s.table.entries
    ensures e in After(s, evs).table.entries ==>
              After(s, evs).table.entries[e].tgid == s.table.entries[e].tgid
    decreases |evs|
  {
    if evs != [] {
      StepKeeps(s, evs[0]);
      EntryLaw(s, evs[0], e);
      OldEntry(s, e);
      var t := Apply(s, evs[0]);
      assert t.table.next >= s.table.next;
      if e in t.table.entries {
        hide *;
        ProcessLaw(t, evs[1..], e);
      } else {
        StaysGone(t, evs[1..], e);
      }
    }
  }

  lemma {:induction false} StaysGone(s: State, evs: seq<Event>, e: EntryId)
    requires Inv(s) && IsRun(s, evs) && e !in s.table.entries && e < s.table.next
    ensures e !in After(s, evs).table.entries
    decreases |evs|
  {
    if evs != [] {
      StepKeeps(s, evs[0]);
      NewEntryLaw(s, evs[0], e);
      assert Apply(s, evs[0]).table.next >= s.table.next;
      hide *;
      StaysGone(Apply(s, evs[0]), evs[1..], e);
    }
  }
}
