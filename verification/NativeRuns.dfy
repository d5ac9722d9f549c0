/** Whole runs of the kernel code for published grants: any requests by any threads and timers, in any order, on a
  * real policy object. */
module NativeRuns {
  import opened Basics
  import opened AvTab
  import opened RuleSets
  import opened SepolicyBatch
  import opened SepolicyApply
  import opened GrantProtocol
  import opened GrantTheorems
  import opened NativePolicy

  /** What a thread or a timer may attempt next. */
  datatype Request =
    | ReqAllow(c: CallId, file: bool, loaded: bool, labelled: bool, sctx: Option<U16>, tctx: Option<U16>, dupOk: bool)
    | ReqGiveBack(c: CallId, dupOk: bool)
    | ReqPublish(c: CallId, tgid: Pid, allocOk: bool, dupOk: bool)
    | ReqArm(c: CallId)
    | ReqRelease(c: CallId, tgid: Pid)
    | ReqCancel(c: CallId)
    | ReqRestoreHead(c: CallId, dupOk: bool)
    | ReqFreeHead(c: CallId)
    | ReqReturn(c: CallId)
    | ReqFire(e: EntryId)
    | ReqTimeoutLock(e: EntryId)
    | ReqTimeoutRestore(e: EntryId, dupOk: bool)
    | ReqTimeoutFree(e: EntryId)
    | ReqPatch(sts: seq<AtomicStatement>, dupOk: bool)
  {
    /** A policy batch is one of rule statements that the daemon can send. */
    ghost predicate Sendable() {
      ReqPatch? ==> RuleStatements(sts) && WfStatements(sts) && Patchable(sts)
    }

    predicate OfTimer() {
      ReqFire? || ReqTimeoutLock? || ReqTimeoutRestore? || ReqTimeoutFree?
    }

    predicate OfDrain() {
      ReqCancel? || ReqRestoreHead? || ReqFreeHead? || ReqReturn?
    }
  }

  /** Whether the request's thread or timer is where it can do this. */
  predicate Ready(entries: map<EntryId, Entry>, calls: map<CallId, Call>, r: Request) {
    match r
    case ReqAllow(c, _, _, _, _, _, _) => c !in calls
    case ReqGiveBack(c, _) => c in calls && calls[c].Holding?
    case ReqPublish(c, _, _, _) => c in calls && calls[c].Holding?
    case ReqArm(c) => c in calls && calls[c].Arming?
    case ReqRelease(c, tgid) => c !in calls && tgid > 0
    case ReqCancel(c) => HeadAt(entries, calls, c, AtCancel) && entries[calls[c].todo[0]].timer in {Idle, Armed}
    case ReqRestoreHead(c, _) => HeadAt(entries, calls, c, AtRestore)
    case ReqFreeHead(c) => HeadAt(entries, calls, c, AtFree)
    case ReqReturn(c) => c in calls && calls[c].Draining? && calls[c].todo == []
    case ReqFire(e) => e in entries && entries[e].timer == Armed
    case ReqTimeoutLock(e) => e in entries && entries[e].timer == Running
    case ReqTimeoutRestore(e, _) => e in entries && entries[e].timer == Claimed
    case ReqTimeoutFree(e) => e in entries && entries[e].timer == Restored
    case ReqPatch(_, _) => true
  }

  predicate HeadAt(entries: map<EntryId, Entry>, calls: map<CallId, Call>, c: CallId, pc: DrainPc) {
    && c in calls && calls[c].Draining? && calls[c].pc == pc
    && calls[c].todo != [] && calls[c].todo[0] in entries
  }

  /** The protocol event by which a request is served. */
  ghost predicate Serves(s: State, r: Request, sym: Symbols, ev: Event)
    requires r.Sendable()
  {
    match r
    case ReqAllow(c, _, _, _, _, _, _) => ev.Allow? && ev.c == c
    case ReqGiveBack(c, dupOk) => ev == GiveBack(c, dupOk)
    case ReqPublish(c, tgid, allocOk, dupOk) =>
      c in s.calls && s.calls[c].Holding? &&
      ev == if s.calls[c].g.HasAdditions() && allocOk then Publish(c, tgid) else GiveBack(c, dupOk)
    case ReqArm(c) => ev == Arm(c)
    case ReqRelease(c, tgid) => ev == Release(c, tgid)
    case ReqCancel(c) => ev == Cancel(c)
    case ReqRestoreHead(c, dupOk) => ev == RestoreHead(c, dupOk)
    case ReqFreeHead(c) => ev == FreeHead(c)
    case ReqReturn(c) => ev == Return(c)
    case ReqFire(e) => ev == Fire(e)
    case ReqTimeoutLock(e) => ev == TimeoutLock(e)
    case ReqTimeoutRestore(e, dupOk) => ev == TimeoutRestore(e, dupOk)
    case ReqTimeoutFree(e) => ev == TimeoutFree(e)
    case ReqPatch(sts, dupOk) => ev.Patch? && BatchBits(sym, sts, dupOk, ev.on, ev.off)
  }

  /** A run that serves every request that is ready when its turn comes, and no other. */
  ghost predicate Served(s: State, reqs: seq<Request>, sym: Symbols, evs: seq<Event>)
    requires IsRun(s, evs) && forall r :: r in reqs ==> r.Sendable()
    decreases |reqs|
  {
    if reqs == [] then evs == []
    else if Ready(s.table.entries, s.calls, reqs[0]) then
      evs != [] && Serves(s, reqs[0], sym, evs[0]) && Served(Apply(s, evs[0]), reqs[1..], sym, evs[1..])
    else Served(s, reqs[1..], sym, evs)
  }

  /** What the regions need to know of a reachable state. */
  lemma Reachable(s: State)
    requires Inv(s)
    ensures InvStructure(s) && ListAllocated(s.table) && s.table.next !in s.table.entries
  {
    assert HistoryOk(s, s.table.next);
    forall e | e in s.table.list
      ensures e in s.table.entries
    {
      assert EntryOk(s, e);
    }
  }

  /** One request of a thread that is not draining. */
  method ServeCall(p: Probe, r: Request, calls: map<CallId, Call>, ghost s: State)
    returns (calls': map<CallId, Call>, ghost ev: Event)
    requires p.Is(s) && calls == s.calls && Ready(p.entries, calls, r) && !r.OfTimer() && !r.OfDrain() && !r.ReqPatch?
    requires InvStructure(s) && ListAllocated(s.table) && s.table.next !in s.table.entries
    modifies p`entries, p`list, p`next, p.se`policy
    ensures Serves(s, r, p.se.sym, ev) && Enabled(s, ev) && p.Is(Apply(s, ev)) && calls' == Apply(s, ev).calls
  {
    hide InvStructure, ListAllocated;
    if r.ReqAllow? || r.ReqGiveBack? {
      calls', ev := ServeGrant(p, r, calls, s);
    } else {
      calls', ev := ServeList(p, r, calls, s);
    }
  }

  /** A thread is granted bits, or gives them back. */
  method ServeGrant(p: Probe, r: Request, calls: map<CallId, Call>, ghost s: State)
    returns (calls': map<CallId, Call>, ghost ev: Event)
    requires p.Is(s) && calls == s.calls && Ready(p.entries, calls, r) && (r.ReqAllow? || r.ReqGiveBack?)
    modifies p.se`policy
    ensures Serves(s, r, p.se.sym, ev) && Enabled(s, ev) && p.Is(Apply(s, ev)) && calls' == Apply(s, ev).calls
  {
    hide Probe.Is;
    match r
    case ReqAllow(c, file, loaded, labelled, sctx, tctx, dupOk) =>
      var ret, g := p.AllowCurrent(c, file, loaded, labelled, sctx, tctx, dupOk, s);
      calls', ev := calls[c := Holding(g)], Allow(c, g);
    case ReqGiveBack(c, dupOk) =>
      p.GiveBack(c, calls[c].g, dupOk, s);
      calls', ev := calls - {c}, GiveBack(c, dupOk);
  }

  /** A thread puts a record on the pending list, queues its timer, or takes a process's records off the list. */
  method ServeList(p: Probe, r: Request, calls: map<CallId, Call>, ghost s: State)
    returns (calls': map<CallId, Call>, ghost ev: Event)
    requires p.Is(s) && calls == s.calls && Ready(p.entries, calls, r)
    requires r.ReqPublish? || r.ReqArm? || r.ReqRelease?
    requires ListAllocated(s.table) && s.table.next !in s.table.entries
    modifies p`entries, p`list, p`next, p.se`policy
    ensures Serves(s, r, p.se.sym, ev) && Enabled(s, ev) && p.Is(Apply(s, ev)) && calls' == Apply(s, ev).calls
  {
    match r
    case ReqPublish(c, tgid, allocOk, dupOk) =>
      var published, oldEntries := p.Publish(c, tgid, calls[c].g, allocOk, dupOk, s);
      if published {
        calls', ev := calls[c := Arming(p.next - 1, oldEntries)], Publish(c, tgid);
      } else {
        calls', ev := calls - {c}, GiveBack(c, dupOk);
      }
    case ReqArm(c) =>
      p.Arm(c, calls[c].e, s);
      calls', ev := calls[c := Draining(calls[c].todo, AtCancel, Some(calls[c].e))], Arm(c);
    case ReqRelease(c, tgid) =>
      var ret, todo := p.Release(c, tgid, s);
      calls', ev := calls[c := Draining(todo, AtCancel, None)], Release(c, tgid);
  }

  /** One request of a draining thread. */
  method ServeDrain(p: Probe, r: Request, calls: map<CallId, Call>, ghost s: State)
    returns (calls': map<CallId, Call>, ghost ev: Event)
    requires p.Is(s) && calls == s.calls && Ready(p.entries, calls, r) && r.OfDrain()
    modifies p`entries, p.se`policy
    ensures Serves(s, r, p.se.sym, ev) && Enabled(s, ev) && p.Is(Apply(s, ev)) && calls' == Apply(s, ev).calls
  {
    assert p.entries == s.table.entries;
    hide Probe.Is, SetTimer, Clear;
    if r.ReqReturn? {
      p.Returned(r.c, s);
      return calls - {r.c}, Return(r.c);
    }
    calls', ev := ServeHead(p, r, calls, s);
  }

  /** A draining thread works on the head of its list. */
  method ServeHead(p: Probe, r: Request, calls: map<CallId, Call>, ghost s: State)
    returns (calls': map<CallId, Call>, ghost ev: Event)
    requires p.Is(s) && calls == s.calls && p.entries == s.table.entries && Ready(p.entries, calls, r)
    requires r.ReqCancel? || r.ReqRestoreHead? || r.ReqFreeHead?
    modifies p`entries, p.se`policy
    ensures Serves(s, r, p.se.sym, ev) && Enabled(s, ev) && p.Is(Apply(s, ev)) && calls' == Apply(s, ev).calls
  {
    hide Probe.Is, SetTimer, Clear, RestoreRecord;
    match r
    case ReqCancel(c) =>
      p.Cancel(c, calls[c].todo[0], s);
      calls', ev := calls[c := calls[c].(pc := AtRestore)], Cancel(c);
    case ReqRestoreHead(c, dupOk) =>
      p.RestoreHead(c, calls[c].todo[0], dupOk, s);
      calls', ev := calls[c := calls[c].(pc := AtFree)], RestoreHead(c, dupOk);
    case ReqFreeHead(c) =>
      p.FreeHead(c, calls[c].todo[0], s);
      calls', ev := calls[c := Draining(calls[c].todo[1..], AtCancel, calls[c].log)], FreeHead(c);
  }

  /** A timer fires, and its body takes the lock. */
  method ServeTimer(p: Probe, r: Request, ghost s: State) returns (ghost ev: Event)
    requires p.Is(s) && Ready(p.entries, s.calls, r) && (r.ReqFire? || r.ReqTimeoutLock?) && InvStructure(s)
    modifies p`entries, p`list
    ensures Serves(s, r, p.se.sym, ev) && Enabled(s, ev) && p.Is(Apply(s, ev)) && Apply(s, ev).calls == s.calls
  {
    assert p.entries == s.table.entries;
    hide InvStructure, Probe.Is, TimeoutClaim, SetTimer;
    match r
    case ReqFire(e) =>
      p.Fire(e, s);
      ev := Fire(e);
    case ReqTimeoutLock(e) =>
      var restore := p.TimeoutLocked(e, s);
      ev := TimeoutLock(e);
  }

  /** The rest of a timer body that has claimed its entry. */
  method ServeTimeout(p: Probe, r: Request, ghost s: State) returns (ghost ev: Event)
    requires p.Is(s) && Ready(p.entries, s.calls, r) && (r.ReqTimeoutRestore? || r.ReqTimeoutFree?)
    modifies p`entries, p.se`policy
    ensures Serves(s, r, p.se.sym, ev) && Enabled(s, ev) && p.Is(Apply(s, ev)) && Apply(s, ev).calls == s.calls
  {
    assert p.entries == s.table.entries;
    hide Probe.Is, SetTimer, Clear;
    match r
    case ReqTimeoutRestore(e, dupOk) =>
      p.TimeoutRestore(e, dupOk, s);
      ev := TimeoutRestore(e, dupOk);
    case ReqTimeoutFree(e) =>
      p.TimeoutFree(e, s);
      ev := TimeoutFree(e);
  }

  /** A policy batch. */
  method ServePatch(p: Probe, r: Request, ghost s: State) returns (ghost ev: Event)
    requires p.Is(s) && r.ReqPatch? && r.Sendable()
    modifies p.se`policy
    ensures Serves(s, r, p.se.sym, ev) && Enabled(s, ev) && p.Is(Apply(s, ev))
    ensures Apply(s, ev).calls == s.calls
  {
    hide Probe.Is, BatchBits;
    var result;
    ghost var on, off;
    result, on, off := p.PatchPolicy(r.sts, r.dupOk, s);
    ev := Patch(on, off);
  }

  method Serve(p: Probe, r: Request, calls: map<CallId, Call>, ghost s: State)
    returns (calls': map<CallId, Call>, ghost ev: Event)
    requires p.Is(s) && Inv(s) && calls == s.calls && Ready(p.entries, calls, r) && r.Sendable()
    modifies p`entries, p`list, p`next, p.se`policy
    ensures Serves(s, r, p.se.sym, ev) && Enabled(s, ev) && p.Is(Apply(s, ev)) && Inv(Apply(s, ev))
    ensures calls' == Apply(s, ev).calls
  {
    Reachable(s);
    hide Inv, InvStructure, Ready, Serves;
    if r.ReqFire? || r.ReqTimeoutLock? {
      ev := ServeTimer(p, r, s);
      calls' := calls;
    } else if r.OfTimer() {
      ev := ServeTimeout(p, r, s);
      calls' := calls;
    } else if r.OfDrain() {
      calls', ev := ServeDrain(p, r, calls, s);
    } else if r.ReqPatch? {
      ev := ServePatch(p, r, s);
      calls' := calls;
    } else {
      calls', ev := ServeCall(p, r, calls, s);
    }
    StepKeeps(s, ev);
  }

  /** Any requests in any order, from a fresh probe on: they are served by a run of the protocol; and as long as no
    * batch says something of a bit on loan, the published policy is the patched base policy plus exactly the
    * outstanding grants and what failed restores left behind, so that an entry is the base entry again exactly when
    * there is neither on it. */
  method Run(p: Probe, reqs: seq<Request>, ghost base: AvKey -> Av) returns (ghost evs: seq<Event>)
    requires p.Is(Init(base)) && forall r :: r in reqs ==> r.Sendable()
    modifies p`entries, p`list, p`next, p.se`policy
    ensures IsRun(Init(base), evs) && Served(Init(base), reqs, p.se.sym, evs)
    ensures var s := After(Init(base), evs);
            && p.Is(s) && Inv(s)
            && (forall k :: s.base(k) == Patched(base(k), evs, k))
            && (NoClash(Init(base), evs) ==>
                  && (forall k :: p.se.policy.Vec(k) == s.base(k) + s.stuck(k) + Granted(s, k))
                  && (forall k :: p.se.policy.Vec(k) == s.base(k) <==> Granted(s, k) == {} && s.stuck(k) == {}))
            && (NeverStuck(Init(base), evs) <==> NoneStranded(Init(base), evs))
            && (AlwaysFaithful(Init(base), evs) <==> NoneRobbed(Init(base), evs))
  {
    InitInv(base);
    var calls: map<CallId, Call>;
    calls, evs := RunFrom(p, reqs, map[], Init(base));
    RunFacts(base, evs);
  }

  lemma RunFacts(base: AvKey -> Av, evs: seq<Event>)
    requires IsRun(Init(base), evs)
    ensures var s := After(Init(base), evs);
            && (forall k :: s.base(k) == Patched(base(k), evs, k))
            && (NoClash(Init(base), evs) ==>
                  && (forall k :: s.policy(k) == s.base(k) + s.stuck(k) + Granted(s, k))
                  && (forall k :: s.policy(k) == s.base(k) <==> Granted(s, k) == {} && s.stuck(k) == {}))
            && (NeverStuck(Init(base), evs) <==> NoneStranded(Init(base), evs))
            && (AlwaysFaithful(Init(base), evs) <==> NoneRobbed(Init(base), evs))
  {
    assert NothingStuck(Init(base)) && Faithful(Init(base));
    hide NothingStuck, Faithful, Granted;
    forall k
      ensures After(Init(base), evs).base(k) == Patched(base(k), evs, k)
    {
      BaseIsPatched(Init(base), evs, k);
    }
    if NoClash(Init(base), evs) {
      PolicyIsBasePlusGrants(base, evs);
    }
    StuckIffStranded(Init(base), evs);
    FaithfulIff(Init(base), evs);
  }

  method RunFrom(p: Probe, reqs: seq<Request>, calls: map<CallId, Call>, ghost s: State)
    returns (calls': map<CallId, Call>, ghost evs: seq<Event>)
    requires p.Is(s) && Inv(s) && calls == s.calls && forall r :: r in reqs ==> r.Sendable()
    modifies p`entries, p`list, p`next, p.se`policy
    ensures IsRun(s, evs) && Served(s, reqs, p.se.sym, evs)
    ensures p.Is(After(s, evs)) && Inv(After(s, evs)) && calls' == After(s, evs).calls
    decreases |reqs|
  {
    hide Inv, Ready, Serves, Request.Sendable;
    calls', evs := calls, [];
    if reqs == [] {
      return;
    }
    if !Ready(p.entries, calls, reqs[0]) {
      calls', evs := RunFrom(p, reqs[1..], calls, s);
      return;
    }
    ghost var ev, rest;
    calls', ev := Serve(p, reqs[0], calls, s);
    calls', rest := RunFrom(p, reqs[1..], calls', Apply(s, ev));
    evs := [ev] + rest;
    assert evs[1..] == rest;
  }
}
