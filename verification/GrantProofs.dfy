/** Each step of the grant protocol keeps its invariants. */
module GrantProofs {
  import opened AvTab
  import opened FileLoadPolicy
  import opened GrantProtocol

  // ---------- list filtering ----------

  lemma {:induction false} SplitByTgid(entries: map<EntryId, Entry>, list: seq<EntryId>, tgid: Pid)
    requires forall e :: e in list ==> e in entries
    requires NoDup(list)
    ensures forall e :: e in WithTgid(entries, list, tgid) <==> e in list && entries[e].tgid == tgid
    ensures forall e :: e in WithoutTgid(entries, list, tgid) <==> e in list && entries[e].tgid != tgid
    ensures NoDup(WithTgid(entries, list, tgid)) && NoDup(WithoutTgid(entries, list, tgid))
  {
    if list != [] {
      SplitByTgid(entries, list[1..], tgid);
      assert list == [list[0]] + list[1..];
      assert list[0] !in list[1..];
    }
  }

  lemma {:induction false} RemovedElements(list: seq<EntryId>, e: EntryId)
    requires NoDup(list)
    ensures forall x :: x in Removed(list, e) <==> x in list && x != e
    ensures NoDup(Removed(list, e))
  {
    if list != [] {
      assert list == [list[0]] + list[1..];
      assert list[0] !in list[1..];
      if list[0] != e {
        RemovedElements(list[1..], e);
      }
    }
  }

  // ---------- the lists, entries and calls stay consistent ----------

  /** What a step needs to know of the entries, calls and lists it is about. */
  lemma Subject(s: State, ev: Event)
    requires Inv(s) && Enabled(s, ev)
    ensures match ev
            case Allow(c, _) => CallOk(s, c)
            case GiveBack(c, _) => CallOk(s, c)
            case Publish(c, tgid) =>
              CallOk(s, c) && Split(s, tgid) && HistoryOk(s, s.table.next) && EntryOk(s, s.table.next)
            case Arm(c) => CallOk(s, c) && EntryOk(s, s.calls[c].e) && HistoryOk(s, s.calls[c].e)
            case Release(c, tgid) => CallOk(s, c) && Split(s, tgid)
            case Cancel(c) => HeadOk(s, c)
            case RestoreHead(c, _) => HeadOk(s, c)
            case FreeHead(c) => HeadOk(s, c)
            case Return(c) => CallOk(s, c)
            case Fire(e) => EntryOk(s, e)
            case TimeoutLock(e) => EntryOk(s, e) && Without1(s, e)
            case TimeoutRestore(e, _) => EntryOk(s, e)
            case TimeoutFree(e) => EntryOk(s, e)
            case Patch(_, _) => true
  {
    match ev
    case Publish(_, tgid) => SplitByTgid(s.table.entries, s.table.list, tgid);
    case Release(_, tgid) => SplitByTgid(s.table.entries, s.table.list, tgid);
    case TimeoutLock(e) => RemovedElements(s.table.list, e);
    case _ =>
  }

  /** A process's entries, and the others, taken apart. */
  ghost predicate Split(s: State, tgid: Pid)
    requires ListAllocated(s.table)
  {
    var list, entries := s.table.list, s.table.entries;
    && (forall e :: e in WithTgid(entries, list, tgid) <==> e in list && entries[e].tgid == tgid)
    && (forall e :: e in WithoutTgid(entries, list, tgid) <==> e in list && entries[e].tgid != tgid)
    && NoDup(WithTgid(entries, list, tgid)) && NoDup(WithoutTgid(entries, list, tgid))
  }

  ghost predicate Without1(s: State, e: EntryId) {
    && (forall x :: x in Removed(s.table.list, e) <==> x in s.table.list && x != e)
    && NoDup(Removed(s.table.list, e))
  }

  /** The head of a draining call's list is its own, and not in the rest. */
  ghost predicate HeadOk(s: State, c: CallId)
    requires c in s.calls && s.calls[c].Draining? && s.calls[c].todo != []
  {
    var todo := s.calls[c].todo;
    && CallOk(s, c) && EntryOk(s, todo[0]) && RecordOk(s, todo[0]) && HistoryOk(s, todo[0])
    && todo == [todo[0]] + todo[1..] && todo[0] !in todo[1..]
  }

  lemma ListStep(s: State, ev: Event)
    requires Inv(s) && Enabled(s, ev)
    ensures NoDup(Apply(s, ev).table.list)
  {
    Subject(s, ev);
    hide EntryOk, CallOk;
  }

  /** The call that is about to queue an entry's timer stays so until it does. */
  lemma StillArming(s: State, ev: Event, x: EntryId)
    requires Inv(s) && Enabled(s, ev)
    ensures forall c :: ArmingAt(s, c, x) && ev != Arm(c) ==> ArmingAt(Apply(s, ev), c, x)
    ensures ev.Publish? ==> ArmingAt(Apply(s, ev), ev.c, s.table.next)
  {
    hide InvStructure, InvLog;
  }

  lemma EntryStepPlain(s: State, ev: Event, x: EntryId)
    requires Inv(s) && Enabled(s, ev) && !ev.Takes() && !ev.OfEntry() && !ev.OfTimer()
    ensures EntryOk(Apply(s, ev), x)
  {
    Subject(s, ev);
    assert EntryOk(s, x);
    StillArming(s, ev, x);
  }

  lemma EntryStepTake(s: State, ev: Event, x: EntryId)
    requires Inv(s) && Enabled(s, ev) && ev.Takes()
    ensures EntryOk(Apply(s, ev), x)
  {
    Subject(s, ev);
    assert EntryOk(s, x);
    StillArming(s, ev, x);
  }

  lemma EntryStepHead(s: State, ev: Event, x: EntryId)
    requires Inv(s) && Enabled(s, ev) && ev.OfEntry()
    ensures EntryOk(Apply(s, ev), x)
  {
    Subject(s, ev);
    assert EntryOk(s, x);
    StillArming(s, ev, x);
  }

  lemma EntryStepTimer(s: State, ev: Event, x: EntryId)
    requires Inv(s) && Enabled(s, ev) && ev.OfTimer()
    ensures EntryOk(Apply(s, ev), x)
  {
    Subject(s, ev);
    assert EntryOk(s, x);
    StillArming(s, ev, x);
  }

  lemma EntryStep(s: State, ev: Event, x: EntryId)
    requires Inv(s) && Enabled(s, ev)
    ensures EntryOk(Apply(s, ev), x)
  {
    hide *;
    if ev.Takes() {
      EntryStepTake(s, ev, x);
    } else if ev.OfEntry() {
      EntryStepHead(s, ev, x);
    } else if ev.OfTimer() {
      EntryStepTimer(s, ev, x);
    } else {
      EntryStepPlain(s, ev, x);
    }
  }

  lemma CallStepPlain(s: State, ev: Event, d: CallId)
    requires Inv(s) && Enabled(s, ev) && !ev.Takes() && !ev.OfEntry() && !ev.OfTimer()
    ensures CallOk(Apply(s, ev), d)
  {
    Subject(s, ev);
    assert CallOk(s, d);
    CallEntries(s, d);
  }

  lemma CallStepTake(s: State, ev: Event, d: CallId)
    requires Inv(s) && Enabled(s, ev) && ev.Takes()
    ensures CallOk(Apply(s, ev), d)
  {
    Subject(s, ev);
    assert CallOk(s, d);
    CallEntries(s, d);
  }

  lemma CallStepArm(s: State, ev: Event, d: CallId)
    requires Inv(s) && Enabled(s, ev) && ev.Arm?
    ensures CallOk(Apply(s, ev), d)
  {
    Subject(s, ev);
    assert CallOk(s, d) && CallPairOk(s, ev.c, d);
    CallEntries(s, d);
  }

  lemma CallStepFree(s: State, ev: Event, d: CallId)
    requires Inv(s) && Enabled(s, ev) && ev.FreeHead?
    ensures CallOk(Apply(s, ev), d)
  {
    Subject(s, ev);
    assert CallOk(s, d);
    CallEntries(s, d);
  }

  lemma CallStepHead(s: State, ev: Event, d: CallId)
    requires Inv(s) && Enabled(s, ev) && (ev.Cancel? || ev.RestoreHead?)
    ensures CallOk(Apply(s, ev), d)
  {
    Subject(s, ev);
    assert CallOk(s, d);
    CallEntries(s, d);
  }

  lemma CallStepEntry(s: State, ev: Event, d: CallId)
    requires Inv(s) && Enabled(s, ev) && ev.OfEntry()
    ensures CallOk(Apply(s, ev), d)
  {
    hide Inv, Enabled, Apply, CallOk;
    if ev.Arm? {
      CallStepArm(s, ev, d);
    } else if ev.FreeHead? {
      CallStepFree(s, ev, d);
    } else {
      CallStepHead(s, ev, d);
    }
  }

  lemma CallStepTimer(s: State, ev: Event, d: CallId)
    requires Inv(s) && Enabled(s, ev) && ev.OfTimer()
    ensures CallOk(Apply(s, ev), d)
  {
    Subject(s, ev);
    assert CallOk(s, d);
    CallEntries(s, d);
  }

  lemma CallEntries(s: State, d: CallId)
    requires Inv(s)
    ensures forall x :: x in s.table.list || (d in s.calls && x in s.calls[d].Todo()) ==> EntryOk(s, x)
  {
  }

  lemma CallStep(s: State, ev: Event, d: CallId)
    requires Inv(s) && Enabled(s, ev)
    ensures CallOk(Apply(s, ev), d)
  {
    hide *;
    if ev.Takes() {
      CallStepTake(s, ev, d);
    } else if ev.OfEntry() {
      CallStepEntry(s, ev, d);
    } else if ev.OfTimer() {
      CallStepTimer(s, ev, d);
    } else {
      CallStepPlain(s, ev, d);
    }
  }

  lemma ListPairStep(s: State, ev: Event, x: EntryId, y: EntryId)
    requires Inv(s) && Enabled(s, ev)
    ensures ListPairOk(Apply(s, ev), x, y)
  {
    Subject(s, ev);
    assert ListPairOk(s, x, y);
  }

  lemma CallPairStep(s: State, ev: Event, c: CallId, d: CallId)
    requires Inv(s) && Enabled(s, ev)
    ensures CallPairOk(Apply(s, ev), c, d)
  {
    assert CallPairOk(s, c, d) && CallOk(s, c) && CallOk(s, d);
  }

  lemma StepStructure(s: State, ev: Event)
    requires Inv(s) && Enabled(s, ev)
    ensures InvStructure(Apply(s, ev))
  {
    var s' := Apply(s, ev);
    ListStep(s, ev);
    hide Inv, Enabled, Apply, EntryOk, CallOk, ListPairOk, CallPairOk;
    forall x
      ensures EntryOk(s', x)
    {
      EntryStep(s, ev, x);
    }
    forall c
      ensures CallOk(s', c)
    {
      CallStep(s, ev, c);
    }
    forall x, y
      ensures ListPairOk(s', x, y)
    {
      ListPairStep(s, ev, x, y);
    }
    forall c, d
      ensures CallPairOk(s', c, d)
    {
      CallPairStep(s, ev, c, d);
    }
  }

  // ---------- the records and the histories stay exact ----------

  lemma LogStepPlain(s: State, ev: Event, x: EntryId)
    requires Inv(s) && Enabled(s, ev) && !ev.Takes() && !ev.OfEntry() && !ev.OfTimer()
    ensures RecordOk(Apply(s, ev), x) && HistoryOk(Apply(s, ev), x)
  {
    Subject(s, ev);
    assert EntryOk(s, x) && RecordOk(s, x) && HistoryOk(s, x);
  }

  lemma LogStepTake(s: State, ev: Event, x: EntryId)
    requires Inv(s) && Enabled(s, ev) && ev.Takes()
    ensures RecordOk(Apply(s, ev), x) && HistoryOk(Apply(s, ev), x)
  {
    Subject(s, ev);
    assert EntryOk(s, x) && RecordOk(s, x) && HistoryOk(s, x);
  }

  lemma LogStepFree(s: State, ev: Event, x: EntryId)
    requires Inv(s) && Enabled(s, ev) && ev.FreeHead?
    ensures RecordOk(Apply(s, ev), x) && HistoryOk(Apply(s, ev), x)
  {
    Subject(s, ev);
    assert EntryOk(s, x) && RecordOk(s, x) && HistoryOk(s, x);
  }

  lemma LogStepHead(s: State, ev: Event, x: EntryId)
    requires Inv(s) && Enabled(s, ev) && ev.OfEntry() && !ev.FreeHead?
    ensures RecordOk(Apply(s, ev), x) && HistoryOk(Apply(s, ev), x)
  {
    Subject(s, ev);
    assert EntryOk(s, x) && RecordOk(s, x) && HistoryOk(s, x);
  }

  lemma LogStepTimer(s: State, ev: Event, x: EntryId)
    requires Inv(s) && Enabled(s, ev) && ev.OfTimer()
    ensures RecordOk(Apply(s, ev), x) && HistoryOk(Apply(s, ev), x)
  {
    Subject(s, ev);
    assert EntryOk(s, x) && RecordOk(s, x) && HistoryOk(s, x);
  }

  lemma LogStep(s: State, ev: Event, x: EntryId)
    requires Inv(s) && Enabled(s, ev)
    ensures RecordOk(Apply(s, ev), x) && HistoryOk(Apply(s, ev), x)
  {
    hide *;
    if ev.Takes() {
      LogStepTake(s, ev, x);
    } else if ev.FreeHead? {
      LogStepFree(s, ev, x);
    } else if ev.OfEntry() {
      LogStepHead(s, ev, x);
    } else if ev.OfTimer() {
      LogStepTimer(s, ev, x);
    } else {
      LogStepPlain(s, ev, x);
    }
  }

  lemma HistoriesStep(s: State, ev: Event)
    requires Inv(s) && Enabled(s, ev)
    ensures NoDup(Apply(s, ev).restored) && NoDup(Apply(s, ev).freed)
  {
    match ev
    case RestoreHead(c, _) => assert HistoryOk(s, s.calls[c].todo[0]) && EntryOk(s, s.calls[c].todo[0]) && CallOk(s, c);
    case FreeHead(c) => assert HistoryOk(s, s.calls[c].todo[0]);
    case TimeoutRestore(e, _) => assert HistoryOk(s, e) && EntryOk(s, e);
    case TimeoutFree(e) => assert HistoryOk(s, e);
    case _ =>
  }

  lemma StepLog(s: State, ev: Event)
    requires Inv(s) && Enabled(s, ev)
    ensures InvLog(Apply(s, ev))
  {
    var s' := Apply(s, ev);
    HistoriesStep(s, ev);
    hide Inv, Enabled, Apply, RecordOk, HistoryOk;
    forall x
      ensures RecordOk(s', x) && HistoryOk(s', x)
    {
      LogStep(s, ev, x);
    }
  }

  // ---------- the policy stays exact ----------

  /** Who records which bits after a step. */
  ghost function HeldAfter(s: State, ev: Event, h: Holder, k: AvKey): Av
    requires Enabled(s, ev)
  {
    if ev.Allow? && h == ByCall(ev.c) then ev.g.Bits(k)
    else if ev.Publish? && h == ByCall(ev.c) then {}
    else if ev.Publish? && h == ByEntry(s.table.next) then HeldBits(s, ByCall(ev.c), k)
    else if Restoring(s, ev).Some? && h == RestoredHolder(s, ev) then {}
    else HeldBits(s, h, k)
  }

  lemma HeldStep(s: State, ev: Event, h: Holder, k: AvKey)
    requires Inv(s) && Enabled(s, ev)
    ensures HeldBits(Apply(s, ev), h, k) == HeldAfter(s, ev, h, k)
  {
    hide *;
    if h.ByCall? {
      HeldByCall(s, ev, h, k);
    } else {
      HeldByEntry(s, ev, h, k);
    }
  }

  lemma HeldByCall(s: State, ev: Event, h: Holder, k: AvKey)
    requires Inv(s) && Enabled(s, ev) && h.ByCall?
    ensures HeldBits(Apply(s, ev), h, k) == HeldAfter(s, ev, h, k)
  {
    hide Grant.Bits, InvStructure, InvLog;
  }

  lemma HeldByEntry(s: State, ev: Event, h: Holder, k: AvKey)
    requires Inv(s) && Enabled(s, ev) && h.ByEntry?
    ensures HeldBits(Apply(s, ev), h, k) == HeldAfter(s, ev, h, k)
  {
    assert NO_GRANT.Bits(k) == {};
    NextUnused(s);
    if ev.FreeHead? {
      Cleared(s, s.calls[ev.c].todo[0]);
    } else if ev.TimeoutFree? {
      Cleared(s, ev.e);
    }
    hide Grant.Bits, InvStructure, InvLog;
  }

  /** An entry about to be freed records nothing. */
  lemma Cleared(s: State, e: EntryId)
    requires Inv(s) && e in s.table.entries
    requires TimerAt(s, e, Restored) || exists c :: DrainingAt(s, c, AtFree) && s.calls[c].todo[0] == e
    ensures s.table.entries[e].state == NO_GRANT
  {
    assert RecordOk(s, e) && EntryOk(s, e);
    if c :| DrainingAt(s, c, AtFree) && s.calls[c].todo[0] == e {
      assert CallOk(s, c);
    }
    assert PastRestore(s, e);
  }

  lemma NextUnused(s: State)
    requires Inv(s)
    ensures !Holds(s, ByEntry(s.table.next))
  {
    assert HistoryOk(s, s.table.next) && EntryOk(s, s.table.next);
  }

  /** A step keeps the policy exact, unless it is a batch that says something of a bit on loan. */
  lemma StepPolicy(s: State, ev: Event)
    requires Inv(s) && InvPolicy(s) && Enabled(s, ev)
    ensures InvPolicy(Apply(s, ev)) <==> !Clash(s, ev)
  {
    var s' := Apply(s, ev);
    forall h, k
      ensures HeldBits(s', h, k) == HeldAfter(s, ev, h, k)
    {
      HeldStep(s, ev, h, k);
    }
    if ev.Patch? {
      PatchPolicy(s, ev.on, ev.off);
    } else if Restoring(s, ev).Some? {
      RestorePolicy(s, ev);
    } else {
      OtherPolicy(s, ev);
    }
  }

  lemma RestorePolicy(s: State, ev: Event)
    requires InvPolicy(s) && Enabled(s, ev) && Restoring(s, ev).Some?
    requires forall h, k :: HeldBits(Apply(s, ev), h, k) == HeldAfter(s, ev, h, k)
    ensures InvPolicy(Apply(s, ev))
  {
    hide HeldBits, PolicyExact, GrantsDisjoint, Grant.Bits;
    Lose(s, Apply(s, ev), RestoredHolder(s, ev), ev.ok);
  }

  lemma OtherPolicy(s: State, ev: Event)
    requires Inv(s) && InvPolicy(s) && Enabled(s, ev) && Restoring(s, ev).None? && !ev.Patch?
    requires forall h, k :: HeldBits(Apply(s, ev), h, k) == HeldAfter(s, ev, h, k)
    ensures InvPolicy(Apply(s, ev))
  {
    NextUnused(s);
    hide HeldBits, PolicyExact, GrantsDisjoint, Grant.Bits, Inv;
    if ev.Allow? {
      Gain(s, Apply(s, ev), ByCall(ev.c), ev.g);
    } else if ev.Publish? {
      Move(s, Apply(s, ev), ByCall(ev.c), ByEntry(s.table.next));
    } else {
      Same(s, Apply(s, ev));
    }
  }

  lemma PatchPolicy(s: State, on: AvKey -> Av, off: AvKey -> Av)
    requires InvPolicy(s)
    ensures InvPolicy(DoPatch(s, on, off)) <==> !OnLoan(s, on, off)
  {
    if OnLoan(s, on, off) {
      PatchBreaks(s, on, off);
    } else {
      PatchKeeps(s, on, off);
    }
  }

  lemma PatchHeld(s: State, on: AvKey -> Av, off: AvKey -> Av)
    ensures forall h, k :: HeldBits(DoPatch(s, on, off), h, k) == HeldBits(s, h, k)
    ensures forall k :: Granted(DoPatch(s, on, off), k) == Granted(s, k)
  {
    var s' := DoPatch(s, on, off);
    assert forall h, k :: HeldBits(s', h, k) == HeldBits(s, h, k);
  }

  lemma PatchKeeps(s: State, on: AvKey -> Av, off: AvKey -> Av)
    requires InvPolicy(s) && !OnLoan(s, on, off)
    ensures InvPolicy(DoPatch(s, on, off))
  {
    var s' := DoPatch(s, on, off);
    PatchHeld(s, on, off);
    forall h, k
      ensures HeldBits(s, h, k) <= Granted(s, k) && Granted(s, k) !! on(k) + off(k)
    {
    }
    hide Granted, HeldBits;
    forall k
      ensures s'.policy(k) == s'.base(k) + s'.stuck(k) + Granted(s', k)
    {
      assert s.policy(k) == s.base(k) + s.stuck(k) + Granted(s, k);
    }
    forall h, k
      ensures HeldBits(s', h, k) !! s'.base(k) + s'.stuck(k)
    {
      assert HeldBits(s, h, k) <= Granted(s, k) && HeldBits(s, h, k) !! s.base(k) + s.stuck(k);
    }
  }

  lemma PatchBreaks(s: State, on: AvKey -> Av, off: AvKey -> Av)
    requires OnLoan(s, on, off)
    ensures !InvPolicy(DoPatch(s, on, off))
  {
    var s' := DoPatch(s, on, off);
    PatchHeld(s, on, off);
    var k, p :| p in on(k) + off(k) && p in Granted(s, k);
    var h :| p in HeldBits(s, h, k);
    if p in on(k) {
      assert p in s'.base(k) && p in HeldBits(s', h, k);
    } else {
      assert p !in s'.policy(k) && p in Granted(s', k);
    }
  }
}
