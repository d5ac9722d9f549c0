/** What happens because a publication queues its entry's timer, and logs the entry, after it has released the lock. */
module GrantTimers {
  import opened Basics
  import opened AvTab
  import opened FileLoadPolicy
  import opened GrantProtocol
  import opened GrantProofs
  import opened GrantTheorems

  // ---------- queueing a timer too late ----------

  /** A thread has cancelled the entry's timer and has not freed the entry yet. */
  predicate PastCancel(s: State, e: EntryId) {
    && e in s.owner && s.owner[e].OfCall? && s.owner[e].c in s.calls
    && var call := s.calls[s.owner[e].c];
       call.Draining? && call.pc != AtCancel && call.todo != [] && call.todo[0] == e
  }

  /** The entry's timer is as cancel_delayed_work_sync should leave it: idle from there to the free, and not queued or
    * running afterwards. */
  predicate Calm(s: State, e: EntryId) {
    && e !in s.wild
    && (PastCancel(s, e) && e in s.table.entries ==> s.table.entries[e].timer == Idle)
  }

  /** The entry has been cancelled or freed before its publisher queues its timer. */
  predicate Late(s: State, c: CallId)
    requires CanArm(s, c)
  {
    s.calls[c].e !in s.table.entries || PastCancel(s, s.calls[c].e)
  }

  predicate LateArm(s: State, ev: Event, e: EntryId) {
    ev.Arm? && CanArm(s, ev.c) && s.calls[ev.c].e == e && Late(s, ev.c)
  }

  /** In every state of the run. */
  ghost predicate AlwaysCalm(s: State, evs: seq<Event>, e: EntryId)
    requires IsRun(s, evs)
    decreases |evs|
  {
    Calm(s, e) && (evs == [] || AlwaysCalm(Apply(s, evs[0]), evs[1..], e))
  }

  ghost predicate NeverLate(s: State, evs: seq<Event>, e: EntryId)
    requires IsRun(s, evs)
    decreases |evs|
  {
    evs == [] || (!LateArm(s, evs[0], e) && NeverLate(Apply(s, evs[0]), evs[1..], e))
  }

  lemma CalmStepHead(s: State, ev: Event, e: EntryId)
    requires Inv(s) && Calm(s, e) && Enabled(s, ev) && ev.OfEntry()
    ensures Calm(Apply(s, ev), e) <==> !LateArm(s, ev, e)
  {
    assert EntryOk(s, e) && HistoryOk(s, e) && CallOk(s, ev.c);
  }

  lemma CalmStepOther(s: State, ev: Event, e: EntryId)
    requires Inv(s) && Calm(s, e) && Enabled(s, ev) && !ev.OfEntry()
    ensures Calm(Apply(s, ev), e)
  {
    assert EntryOk(s, e) && HistoryOk(s, e);
    Subject(s, ev);
  }

  lemma CalmStep(s: State, ev: Event, e: EntryId)
    requires Inv(s) && Calm(s, e) && Enabled(s, ev)
    ensures Calm(Apply(s, ev), e) <==> !LateArm(s, ev, e)
  {
    hide Inv, Calm, Enabled, Apply, Late;
    if ev.OfEntry() {
      CalmStepHead(s, ev, e);
    } else {
      CalmStepOther(s, ev, e);
    }
  }

  lemma {:induction false} CalmIff(s: State, evs: seq<Event>, e: EntryId)
    requires Inv(s) && Calm(s, e) && IsRun(s, evs)
    ensures AlwaysCalm(s, evs, e) <==> NeverLate(s, evs, e)
    decreases |evs|
  {
    hide Inv, Calm, Enabled, Apply, LateArm;
    if evs != [] {
      var t := Apply(s, evs[0]);
      StepKeeps(s, evs[0]);
      CalmStep(s, evs[0], e);
      if Calm(t, e) {
        CalmIff(t, evs[1..], e);
      } else {
        assert !AlwaysCalm(t, evs[1..], e);
      }
    }
  }

  /** In every run: an entry's timer stays idle from its cancel to its free, and no timer of the freed entry is queued
    * or running, exactly when its publisher never queues the timer after the cancel. */
  lemma NoUseAfterFree(base: AvKey -> Av, evs: seq<Event>, e: EntryId)
    requires IsRun(Init(base), evs)
    ensures AlwaysCalm(Init(base), evs, e) <==> NeverLate(Init(base), evs, e)
  {
    InitInv(base);
    CalmIff(Init(base), evs, e);
  }

  /** It cannot be too late while the entry is on the pending list: some thread has to take it off between its
    * publication and the queueing of its timer. */
  lemma LateWasTaken(s: State, c: CallId)
    requires Inv(s) && CanArm(s, c) && Late(s, c)
    ensures s.calls[c].e !in s.table.list
  {
    assert EntryOk(s, s.calls[c].e);
  }

  // ---------- where a late queueing leads ----------

  /** The timer of e has been queued, and not too late. */
  ghost predicate Settled(s: State, e: EntryId) {
    Calm(s, e) && e < s.table.next && forall c :: !ArmingAt(s, c, e)
  }

  lemma SettledStep(s: State, ev: Event, e: EntryId)
    requires Inv(s) && Settled(s, e) && Enabled(s, ev)
    ensures Settled(Apply(s, ev), e)
  {
    CalmStep(s, ev, e);
    if ev.Arm? {
      assert !ArmingAt(s, ev.c, e);
    }
    hide Inv, Calm, Late;
    forall c
      ensures !ArmingAt(Apply(s, ev), c, e)
    {
      assert !ArmingAt(s, c, e);
    }
  }

  lemma {:induction false} AfterSettled(s: State, evs: seq<Event>, e: EntryId)
    requires Inv(s) && Settled(s, e) && IsRun(s, evs)
    ensures Settled(After(s, evs), e)
    decreases |evs|
  {
    hide Inv, Settled;
    if evs != [] {
      StepKeeps(s, evs[0]);
      SettledStep(s, evs[0], e);
      AfterSettled(Apply(s, evs[0]), evs[1..], e);
    }
  }

  /** Some run from here on ends with a timer of the freed entry e queued or running. */
  ghost predicate CanGoWild(s: State, e: EntryId) {
    exists evs :: IsRun(s, evs) && e in After(s, evs).wild
  }

  lemma LateGoesWild(s: State, c: CallId)
    requires Inv(s) && CanArm(s, c) && Late(s, c)
    ensures CanGoWild(DoArm(s, c), s.calls[c].e)
  {
    var e, t := s.calls[c].e, DoArm(s, c);
    assert Enabled(s, Arm(c)) && Apply(s, Arm(c)) == t;
    if e !in s.table.entries {
      assert IsRun(t, []) && After(t, []) == t;
    } else {
      var d := s.owner[e].c;
      assert EntryOk(s, e) && CallOk(s, d);
      if s.calls[d].pc == AtFree {
        FreeGoesWild(t, d, e);
      } else {
        var u := DoRestoreHead(t, d, true);
        assert Enabled(t, RestoreHead(d, true)) && Apply(t, RestoreHead(d, true)) == u;
        FreeGoesWild(u, d, e);
        var evs :| IsRun(u, evs) && e in After(u, evs).wild;
        OneMore(t, RestoreHead(d, true), evs);
      }
    }
  }

  lemma FreeGoesWild(s: State, d: CallId, e: EntryId)
    requires DrainingAt(s, d, AtFree) && s.calls[d].todo[0] == e && s.table.entries[e].timer == Armed
    ensures CanGoWild(s, e)
  {
    var u := DoFreeHead(s, d);
    assert Enabled(s, FreeHead(d)) && Apply(s, FreeHead(d)) == u && e in u.wild;
    assert IsRun(u, []) && After(u, []) == u;
    OneMore(s, FreeHead(d), []);
  }

  lemma ArmedSettles(s: State, c: CallId)
    requires Inv(s) && CanArm(s, c) && !Late(s, c)
    ensures Settled(DoArm(s, c), s.calls[c].e)
  {
    var e, t := s.calls[c].e, DoArm(s, c);
    assert HistoryOk(s, e) && EntryOk(s, e) && CallOk(s, c);
    forall d
      ensures !ArmingAt(t, d, e)
    {
      assert CallPairOk(s, c, d);
    }
  }

  /** After the queueing of a timer in any reachable state, some run leads to a freed entry whose timer is queued or
    * running exactly when the queueing came after the entry's cancel. */
  lemma WildIffLate(base: AvKey -> Av, evs: seq<Event>, c: CallId)
    requires IsRun(Init(base), evs) && CanArm(After(Init(base), evs), c)
    ensures var s := After(Init(base), evs);
            CanGoWild(DoArm(s, c), s.calls[c].e) <==> Late(s, c)
  {
    ReachableInv(base, evs);
    var s := After(Init(base), evs);
    var t := DoArm(s, c);
    if Late(s, c) {
      LateGoesWild(s, c);
    } else {
      ArmedSettles(s, c);
      assert Enabled(s, Arm(c)) && Apply(s, Arm(c)) == t;
      StepKeeps(s, Arm(c));
      forall rest | IsRun(t, rest)
        ensures s.calls[c].e !in After(t, rest).wild
      {
        AfterSettled(t, rest, s.calls[c].e);
      }
    }
  }

  // ---------- the log line ----------

  /** The step that frees an entry. */
  predicate Frees(s: State, ev: Event, e: EntryId) {
    || (ev.FreeHead? && DrainingAt(s, ev.c, AtFree) && s.calls[ev.c].todo[0] == e)
    || ev == TimeoutFree(e)
  }

  ghost predicate NeverFreed(s: State, evs: seq<Event>, e: EntryId)
    requires IsRun(s, evs)
    decreases |evs|
  {
    evs == [] || (!Frees(s, evs[0], e) && NeverFreed(Apply(s, evs[0]), evs[1..], e))
  }

  lemma {:induction false} FreedIff(s: State, evs: seq<Event>, e: EntryId)
    requires IsRun(s, evs)
    ensures e in After(s, evs).freed <==> e in s.freed || !NeverFreed(s, evs, e)
    decreases |evs|
  {
    if evs != [] {
      var t := Apply(s, evs[0]);
      assert e in t.freed <==> e in s.freed || Frees(s, evs[0], e);
      hide Apply, Enabled, Frees;
      FreedIff(t, evs[1..], e);
    }
  }

  /** A publication that has drained the old entries is about to log entry e. */
  predicate LogsAt(s: State, c: CallId, e: EntryId) {
    CanReturn(s, c) && s.calls[c].log == Some(e)
  }

  /** The log line reads freed memory exactly when a thread or the timer has freed the entry since its publication. */
  lemma LogReadsFreed(base: AvKey -> Av, evs: seq<Event>, c: CallId, e: EntryId)
    requires IsRun(Init(base), evs) && LogsAt(After(Init(base), evs), c, e)
    ensures e in After(Init(base), evs).table.entries <==> NeverFreed(Init(base), evs, e)
  {
    ReachableInv(base, evs);
    var s := After(Init(base), evs);
    LoggedIsOld(Init(base), evs, c, e);
    FreedIff(Init(base), evs, e);
    assert HistoryOk(s, e);
  }

  ghost predicate LogsOld(s: State) {
    forall c :: c in s.calls && s.calls[c].Draining? && s.calls[c].log.Some? ==> s.calls[c].log.value < s.table.next
  }

  lemma LogsOldStep(s: State, ev: Event)
    requires Inv(s) && LogsOld(s) && Enabled(s, ev)
    ensures LogsOld(Apply(s, ev))
  {
    if ev.Arm? {
      assert CallOk(s, ev.c);
    }
    hide Inv;
  }

  lemma {:induction false} LoggedIsOld(s: State, evs: seq<Event>, c: CallId, e: EntryId)
    requires Inv(s) && LogsOld(s) && IsRun(s, evs) && LogsAt(After(s, evs), c, e)
    ensures e < After(s, evs).table.next
    decreases |evs|
  {
    if evs != [] {
      StepKeeps(s, evs[0]);
      LogsOldStep(s, evs[0]);
      hide Inv, LogsOld;
      LoggedIsOld(Apply(s, evs[0]), evs[1..], c, e);
    }
  }

  // ---------- three runs ----------

  function Loan(): Grant {
    Grant(1, 2, 0, 3, {5}, {})
  }

  /** The run leads from an empty table to t. */
  ghost predicate Leads(evs: seq<Event>, t: State) {
    IsRun(Init(k => {}), evs) && After(Init(k => {}), evs) == t
  }

  lemma {:induction false} RunSnoc(s: State, evs: seq<Event>, ev: Event)
    requires IsRun(s, evs) && Enabled(After(s, evs), ev)
    ensures IsRun(s, evs + [ev]) && After(s, evs + [ev]) == Apply(After(s, evs), ev)
    decreases |evs|
  {
    if evs == [] {
      assert IsRun(Apply(s, ev), []);
    } else {
      assert (evs + [ev])[1..] == evs[1..] + [ev];
      RunSnoc(Apply(s, evs[0]), evs[1..], ev);
    }
  }

  /** One more step. */
  lemma Then(evs: seq<Event>, s: State, ev: Event)
    requires Leads(evs, s) && Enabled(s, ev)
    ensures Leads(evs + [ev], Apply(s, ev))
  {
    RunSnoc(Init(k => {}), evs, ev);
  }

  /** Entry 0, published by call 0 for process 7: its timer, the calls, and who has it. */
  ghost predicate At(s: State, timer: Timer, calls: map<CallId, Call>, owner: Owner) {
    && s.table.entries.Keys == {0} && s.table.entries[0].timer == timer && s.table.entries[0].tgid == 7
    && (s.table.entries[0].pending <==> owner == OnList)
    && s.table.list == (if owner == OnList then [0] else [])
    && s.calls == calls && s.owner == map[0 := owner] && s.wild == {}
  }

  lemma RunPublish() returns (evs: seq<Event>, s: State)
    ensures Leads(evs, s) && At(s, Idle, map[0 := Arming(0, [])], OnList)
    ensures evs == [Allow(0, Loan()), Publish(0, 7)]
  {
    s := Init(k => {});
    assert IsRun(s, []) && Leads([], s);
    hide Leads;
    Then([], s, Allow(0, Loan()));
    s := Apply(s, Allow(0, Loan()));
    Then([] + [Allow(0, Loan())], s, Publish(0, 7));
    s := Apply(s, Publish(0, 7));
    evs := [Allow(0, Loan()), Publish(0, 7)];
    assert s.table.list == [0];
    assert evs == [] + [Allow(0, Loan())] + [Publish(0, 7)];
  }

  lemma OneListed(entries: map<EntryId, Entry>, list: seq<EntryId>, e: EntryId)
    requires list == [e] && e in entries
    ensures WithTgid(entries, list, entries[e].tgid) == [e] && WithoutTgid(entries, list, entries[e].tgid) == []
  {
    assert list[1..] == [];
  }

  const TakeRun: seq<Event> := [Allow(0, Loan()), Publish(0, 7), Release(1, 7)]

  /** A second call takes the entry before its timer is queued. */
  lemma RunTake() returns (s: State)
    ensures Leads(TakeRun, s)
    ensures At(s, Idle, map[0 := Arming(0, []), 1 := Draining([0], AtCancel, None)], OfCall(1))
  {
    var evs;
    evs, s := RunPublish();
    hide Leads;
    OneListed(s.table.entries, s.table.list, 0);
    Then(evs, s, Release(1, 7));
    s := Apply(s, Release(1, 7));
    assert evs + [Release(1, 7)] == TakeRun;
  }

  const Drained: seq<Event> := [RestoreHead(1, true), FreeHead(1)]

  /** The second call restores and frees the entry. */
  lemma RunDrain(evs: seq<Event>, s: State, timer: Timer) returns (t: State)
    requires Leads(evs, s)
    requires At(s, timer, map[0 := Draining([], AtCancel, Some(0)), 1 := Draining([0], AtRestore, None)], OfCall(1))
    ensures Leads(evs + Drained, t) && t.table.entries == map[]
    ensures t.wild == if timer == Idle then {} else {0}
  {
    hide Leads;
    Then(evs, s, RestoreHead(1, true));
    t := Apply(s, RestoreHead(1, true));
    Then(evs + [RestoreHead(1, true)], t, FreeHead(1));
    t := Apply(t, FreeHead(1));
    assert t.table.entries.Keys == {};
    assert evs + [RestoreHead(1, true)] + [FreeHead(1)] == evs + Drained;
  }

  /** It cancels the timer before it is queued: the entry is freed with its timer queued. */
  lemma FreedWhileQueued()
    ensures exists t :: Leads(TakeRun + [Cancel(1)] + [Arm(0)] + Drained, t)
                        && t.table.entries == map[] && t.wild == {0}
  {
    var s := RunTake();
    hide Leads, TakeRun, Drained;
    Then(TakeRun, s, Cancel(1));
    s := Apply(s, Cancel(1));
    Then(TakeRun + [Cancel(1)], s, Arm(0));
    s := Apply(s, Arm(0));
    var t := RunDrain(TakeRun + [Cancel(1)] + [Arm(0)], s, Armed);
  }

  /** It cancels the timer after it was queued: taking the entry early does no harm by itself. */
  lemma TakenButCalm()
    ensures exists t :: Leads(TakeRun + [Arm(0)] + [Cancel(1)] + Drained, t)
                        && t.table.entries == map[] && t.wild == {}
  {
    var s := RunTake();
    hide Leads, TakeRun, Drained;
    Then(TakeRun, s, Arm(0));
    s := Apply(s, Arm(0));
    Then(TakeRun + [Arm(0)], s, Cancel(1));
    s := Apply(s, Cancel(1));
    var t := RunDrain(TakeRun + [Arm(0)] + [Cancel(1)], s, Idle);
  }

  const TimerRun: seq<Event> := [Fire(0), TimeoutLock(0), TimeoutRestore(0, true), TimeoutFree(0)]

  /** The timer runs to its end before the publication logs the entry. */
  lemma LoggedAfterFree()
    ensures exists t :: Leads([Allow(0, Loan()), Publish(0, 7)] + [Arm(0)] + TimerRun, t)
                        && LogsAt(t, 0, 0) && t.table.entries == map[]
  {
    var evs, s := RunPublish();
    hide Leads;
    Then(evs, s, Arm(0));
    evs, s := evs + [Arm(0)], Apply(s, Arm(0));
    Then(evs, s, Fire(0));
    s := Apply(s, Fire(0));
    Then(evs + [Fire(0)], s, TimeoutLock(0));
    s := Apply(s, TimeoutLock(0));
    Then(evs + [Fire(0)] + [TimeoutLock(0)], s, TimeoutRestore(0, true));
    s := Apply(s, TimeoutRestore(0, true));
    Then(evs + [Fire(0)] + [TimeoutLock(0)] + [TimeoutRestore(0, true)], s, TimeoutFree(0));
    assert evs + [Fire(0)] + [TimeoutLock(0)] + [TimeoutRestore(0, true)] + [TimeoutFree(0)] == evs + TimerRun;
  }
}
