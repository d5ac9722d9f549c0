/** Following app processes from the zygote's fork to their end, and announcing each one once. */
module Lifecycle {
  import opened Basics
  import opened SlotTable

  const MAX_CHILDREN := 512

  /** struct zo_child beside its pid; specialized is state == ZO_SPECIALIZED. */
  datatype ChildState = ChildState(uid: U32, specialized: bool)

  type Child = Slot<ChildState>

  /** What the orchestrator does that others can see, and the start of each tracked lifetime. */
  datatype Entry =
    | Tracked(pid: nat)
    | Specialize(pid: nat, uid: U32)   // the announcement
    | Gone(pid: nat)

  datatype State = State(slots: seq<Child>, log: seq<Entry>)

  datatype Event =
    | Fork(pid: nat, leader: bool, fromZygote: bool)
    | Free(pid: nat, leader: bool)
    | UidChange(pid: nat, uid: U32)        // seen by the kernel hook
    | UserspaceReport(pid: nat, uid: U32)

  /** App processes, except isolated ones. */
  predicate IsApp(uid: U32) {
    uid >= 10000 && uid % 100000 < 90000
  }

  function Track(s: State, pid: nat): State {
    match (SlotOf(s.slots, pid), SlotOf(s.slots, 0))
    case (None, Some(i)) => State(s.slots[i := Slot(pid, ChildState(0xFFFF_FFFF, false))], s.log + [Tracked(pid)])
    case _ => s
  }

  function Forget(s: State, pid: nat): State {
    match SlotOf(s.slots, pid)
    case Some(i) => State(s.slots[i := s.slots[i].(pid := 0)], s.log + [Gone(pid)])
    case None => s
  }

  function Announce(s: State, pid: nat, uid: U32): State {
    if !IsApp(uid) then s
    else match SlotOf(s.slots, pid)
      case Some(i) =>
        if s.slots[i].data.specialized then s
        else State(s.slots[i := Slot(pid, ChildState(uid, true))], s.log + [Specialize(pid, uid)])
      case None => s
  }

  function Step(s: State, e: Event): State {
    match e
    case Fork(pid, leader, fromZygote) => if leader && fromZygote then Track(s, pid) else s
    case Free(pid, leader) => if leader then Forget(s, pid) else s
    case UidChange(pid, uid) => Announce(s, pid, uid)
    case UserspaceReport(pid, uid) => Announce(s, pid, uid)
  }

  function After(s: State, es: seq<Event>): State
    decreases |es|
  {
    if es == [] then s else After(Step(s, es[0]), es[1..])
  }

  function Init(): State {
    State(seq(MAX_CHILDREN, _ => Slot(0, ChildState(0, false))), [])
  }

  // ---- What a step changes ----

  /** Some slot has that pid; with pid 0, some slot is free. */
  ghost predicate Holds(s: State, pid: nat) {
    exists i :: 0 <= i < |s.slots| && s.slots[i].pid == pid
  }

  /** Some slot has that pid and that data. */
  ghost predicate HoldsAs(s: State, pid: nat, uid: U32, specialized: bool) {
    exists i :: 0 <= i < |s.slots| && s.slots[i] == Slot(pid, ChildState(uid, specialized))
  }

  /** A process is newly tracked exactly when a leader is forked from a zygote, is not tracked, and a slot is free. */
  ghost predicate Enters(s: State, e: Event, pid: nat) {
    e == Fork(pid, true, true) && !Holds(s, pid) && Holds(s, 0)
  }

  /** A tracked process leaves exactly when its leader is freed. */
  ghost predicate Leaves(s: State, e: Event, pid: nat) {
    e == Free(pid, true) && Holds(s, pid)
  }

  /** A forked process becomes specialized exactly when the kernel hook or a report names it with an app uid. */
  ghost predicate Specializes(s: State, e: Event, pid: nat, uid: U32) {
    && (e == UidChange(pid, uid) || e == UserspaceReport(pid, uid)) && IsApp(uid)
    && exists u :: HoldsAs(s, pid, u, false)
  }

  /** Which processes are tracked after a step, and what the step adds to the log. */
  lemma TrackingLaw(s: State, e: Event, pid: nat)
    requires OnePerPid(s.slots) && pid != 0 && ((e.Fork? || e.Free?) ==> e.pid != 0)
    ensures Holds(Step(s, e), pid) <==> (Holds(s, pid) && !Leaves(s, e, pid)) || Enters(s, e, pid)
    ensures e.pid == pid ==>
              Step(s, e).log == s.log + if Enters(s, e, pid) then [Tracked(pid)]
                                        else if Leaves(s, e, pid) then [Gone(pid)]
                                        else if (e.UidChange? || e.UserspaceReport?) && Specializes(s, e, pid, e.uid)
                                        then [Specialize(pid, e.uid)]
                                        else []
  {
    hide Step, Holds, HoldsAs, IsApp;
    if e.pid != pid {
      OtherLaw(s, e, pid);
    } else if e.Fork? {
      ForkLaw(s, e);
    } else if e.Free? {
      FreeLaw(s, e);
    } else {
      AnnounceLaw(s, e);
    }
  }

  /** What the law says of the step's own process. */
  ghost predicate OwnLaw(s: State, e: Event) {
    var t := Step(s, e);
    && (Holds(t, e.pid) <==> (Holds(s, e.pid) && !Leaves(s, e, e.pid)) || Enters(s, e, e.pid))
    && t.log == s.log + if Enters(s, e, e.pid) then [Tracked(e.pid)]
                        else if Leaves(s, e, e.pid) then [Gone(e.pid)]
                        else if (e.UidChange? || e.UserspaceReport?) && Specializes(s, e, e.pid, e.uid)
                        then [Specialize(e.pid, e.uid)]
                        else []
  }

  lemma ForkLaw(s: State, e: Event)
    requires e.Fork? && e.pid != 0
    ensures OwnLaw(s, e)
  {
    SlotHolds(s, e.pid);
    SlotHolds(s, 0);
    if Enters(s, e, e.pid) {
      var i := SlotOf(s.slots, 0).value;
      assert Step(s, e).slots[i].pid == e.pid;
    } else {
      assert Step(s, e) == s;
    }
    assert s.log + [] == s.log;
  }

  lemma FreeLaw(s: State, e: Event)
    requires OnePerPid(s.slots) && e.Free? && e.pid != 0
    ensures OwnLaw(s, e)
  {
    SlotHolds(s, e.pid);
    if Leaves(s, e, e.pid) {
      var i, t := SlotOf(s.slots, e.pid).value, Step(s, e);
      forall j | 0 <= j < |t.slots|
        ensures t.slots[j].pid != e.pid
      {
        assert j != i ==> t.slots[j] == s.slots[j];
      }
    } else {
      assert Step(s, e) == s;
    }
    assert s.log + [] == s.log;
  }

  lemma AnnounceLaw(s: State, e: Event)
    requires OnePerPid(s.slots) && (e.UidChange? || e.UserspaceReport?) && e.pid != 0
    ensures OwnLaw(s, e)
  {
    SlotHolds(s, e.pid);
    OnlySlot(s, e.pid);
    var k, t := SlotOf(s.slots, e.pid), Step(s, e);
    assert Specializes(s, e, e.pid, e.uid) <==> IsApp(e.uid) && k.Some? && !s.slots[k.value].data.specialized by {
      if IsApp(e.uid) && k.Some? && !s.slots[k.value].data.specialized {
        assert HoldsAs(s, e.pid, s.slots[k.value].data.uid, false);
      }
    }
    hide HoldsAs, IsApp, Specializes;
    if k.Some? {
      assert t.slots[k.value].pid == e.pid;
    } else {
      assert t == s;
    }
    assert s.log + [] == s.log;
  }

  lemma OtherLaw(s: State, e: Event, pid: nat)
    requires pid != e.pid && pid != 0
    ensures Holds(Step(s, e), pid) <==> (Holds(s, pid) && !Leaves(s, e, pid)) || Enters(s, e, pid)
  {
    var t := Step(s, e);
    hide HoldsAs, IsApp;
    if Holds(s, pid) {
      var i :| 0 <= i < |s.slots| && s.slots[i].pid == pid;
      assert t.slots[i].pid == pid;
    }
    if Holds(t, pid) {
      var i :| 0 <= i < |t.slots| && t.slots[i].pid == pid;
      assert s.slots[i].pid == pid;
    }
  }

  lemma SlotHolds(s: State, pid: nat)
    ensures SlotOf(s.slots, pid).Some? <==> Holds(s, pid)
  {
  }

  lemma OnlySlot(s: State, pid: nat)
    requires OnePerPid(s.slots) && pid != 0
    ensures forall u: U32, b: bool :: HoldsAs(s, pid, u, b) <==>
              SlotOf(s.slots, pid).Some? && s.slots[SlotOf(s.slots, pid).value].data == ChildState(u, b)
  {
  }

  /** A newly tracked process has no uid yet and is not specialized; a specialized one has the uid it was announced
    * with; and no step changes the slot of another process. */
  lemma SlotLaw(s: State, e: Event, i: nat)
    requires OnePerPid(s.slots) && i < |s.slots| && ((e.Fork? || e.Free?) ==> e.pid != 0)
    ensures |Step(s, e).slots| == |s.slots|
    ensures s.slots[i].pid != 0 && s.slots[i].pid != e.pid ==> Step(s, e).slots[i] == s.slots[i]
    ensures s.slots[i].pid == e.pid != 0 ==>
              Step(s, e).slots[i] ==
              if Leaves(s, e, e.pid) then s.slots[i].(pid := 0)
              else if (e.UidChange? || e.UserspaceReport?) && Specializes(s, e, e.pid, e.uid)
              then Slot(e.pid, ChildState(e.uid, true))
              else s.slots[i]
    ensures s.slots[i].pid == 0 != e.pid ==>
              Step(s, e).slots[i] == s.slots[i] || Step(s, e).slots[i] == Slot(e.pid, ChildState(0xFFFF_FFFF, false))
  {
    if e.pid != 0 {
      OnlySlot(s, e.pid);
      SlotHolds(s, e.pid);
    }
  }

  /** With user u and a number a within it: an app, and not an isolated process. The number of a system process of a
    * secondary user passes too. */
  lemma AppUids(u: nat, a: nat)
    requires a < 100000 && u * 100000 + a < 0x1_0000_0000
    ensures IsApp(u * 100000 + a) <==> a < 90000 && (u > 0 || a >= 10000)
    ensures IsApp(10000) && !IsApp(9999) && IsApp(89999) && !IsApp(90000) && IsApp(101000)
  {
    assert (u * 100000 + a) % 100000 == a;
  }

  // ---- What the log says ----

  datatype Phase = Unknown | Forked | Specialized

  /** The phase an entry starts, and the phase it may come in. */
  function NextPhase(e: Entry): Phase {
    match e
    case Tracked(_) => Forked
    case Specialize(_, _) => Specialized
    case Gone(_) => Unknown
  }

  predicate Fits(phase: Phase, e: Entry) {
    match e
    case Tracked(_) => phase == Unknown
    case Specialize(_, uid) => phase == Forked && IsApp(uid)
    case Gone(_) => phase != Unknown
  }

  function PhaseOf(log: seq<Entry>, pid: nat): Phase {
    if log == [] then Unknown
    else
      var last := log[|log| - 1];
      if last.pid == pid then NextPhase(last) else PhaseOf(log[..|log| - 1], pid)
  }

  /** Each process in turn: tracked, then announced at most once as an app, then gone. Pid 0 is never tracked,
    * but may be announced, as an app too. */
  predicate Legal(log: seq<Entry>) {
    log == [] || (Legal(log[..|log| - 1]) && LegalNext(log[..|log| - 1], log[|log| - 1]))
  }

  predicate LegalNext(log: seq<Entry>, e: Entry) {
    if e.pid == 0 then e.Specialize? && IsApp(e.uid) else Fits(PhaseOf(log, e.pid), e)
  }

  /** The slots hold exactly the processes the log says are alive, each in its phase. */
  ghost predicate SlotsMatch(s: State, pid: nat) {
    match SlotOf(s.slots, pid)
    case None => PhaseOf(s.log, pid) == Unknown
    case Some(i) => PhaseOf(s.log, pid) == if s.slots[i].data.specialized then Specialized else Forked
  }

  ghost predicate Inv(s: State) {
    && |s.slots| == MAX_CHILDREN && OnePerPid(s.slots) && Legal(s.log)
    && forall pid: nat :: pid != 0 ==> SlotsMatch(s, pid)
  }

  lemma PhaseSnoc(log: seq<Entry>, e: Entry)
    ensures forall pid: nat :: PhaseOf(log + [e], pid) == if e.pid == pid then NextPhase(e) else PhaseOf(log, pid)
    ensures Legal(log + [e]) <==> Legal(log) && LegalNext(log, e)
  {
    assert (log + [e])[..|log|] == log;
  }

  lemma TrackInv(s: State, pid: nat)
    requires Inv(s) && pid != 0
    ensures Inv(Track(s, pid))
  {
    PhaseSnoc(s.log, Tracked(pid));
    hide PhaseOf, Legal;
    assert SlotsMatch(s, pid);
    var t, i := Track(s, pid), SlotOf(s.slots, 0);
    forall q: nat | q != 0
      ensures SlotsMatch(t, q)
    {
      assert SlotsMatch(s, q);
      if t != s {
        SlotOfUpdate(s.slots, i.value, t.slots[i.value], q);
      }
    }
  }

  lemma ForgetInv(s: State, pid: nat)
    requires Inv(s) && pid != 0
    ensures Inv(Forget(s, pid))
  {
    PhaseSnoc(s.log, Gone(pid));
    hide PhaseOf, Legal;
    assert SlotsMatch(s, pid);
    var t, i := Forget(s, pid), SlotOf(s.slots, pid);
    forall q: nat | q != 0
      ensures SlotsMatch(t, q)
    {
      assert SlotsMatch(s, q);
      if t != s {
        SlotOfUpdate(s.slots, i.value, t.slots[i.value], q);
      }
    }
  }

  lemma AnnounceInv(s: State, pid: nat, uid: U32)
    requires Inv(s)
    ensures Inv(Announce(s, pid, uid))
  {
    PhaseSnoc(s.log, Specialize(pid, uid));
    hide PhaseOf, Legal;
    assert pid != 0 ==> SlotsMatch(s, pid);
    var t, i := Announce(s, pid, uid), SlotOf(s.slots, pid);
    forall q: nat | q != 0
      ensures SlotsMatch(t, q)
    {
      assert SlotsMatch(s, q);
      if t != s {
        SlotOfUpdate(s.slots, i.value, t.slots[i.value], q);
      }
    }
  }

  /** The kernel never forks or frees a process with pid 0; a userspace report may name one. */
  predicate RealPids(es: seq<Event>) {
    forall i :: 0 <= i < |es| && (es[i].Fork? || es[i].Free?) ==> es[i].pid != 0
  }

  lemma {:induction false} AfterInv(s: State, es: seq<Event>)
    requires Inv(s) && RealPids(es)
    ensures Inv(After(s, es))
    decreases |es|
  {
    if es != [] {
      var e := es[0];
      hide Inv;
      match e {
        case Fork(pid, leader, fromZygote) =>
          if leader && fromZygote { TrackInv(s, pid); }
        case Free(pid, leader) =>
          if leader { ForgetInv(s, pid); }
        case UidChange(pid, uid) => AnnounceInv(s, pid, uid);
        case UserspaceReport(pid, uid) => AnnounceInv(s, pid, uid);
      }
      AfterInv(Step(s, e), es[1..]);
    }
  }

  lemma InitInv()
    ensures Inv(Init())
  {
  }

  /** Whatever order forks, frees, kernel hooks and reports come in, and however often they repeat: every
    * process is announced at most once per lifetime, only while tracked and only as an app, and no two
    * slots hold one process. */
  lemma EveryRunIsLegal(es: seq<Event>)
    requires RealPids(es)
    ensures Legal(After(Init(), es).log) && OnePerPid(After(Init(), es).slots)
  {
    InitInv();
    AfterInv(Init(), es);
  }

  /** Being announced at position k means: tracked some time before and not gone since. */
  lemma {:induction false} PhaseMeaning(log: seq<Entry>, pid: nat) returns (i: nat)
    requires PhaseOf(log, pid) != Unknown && Legal(log) && pid != 0
    ensures i < |log| && log[i] == Tracked(pid)
    ensures forall j :: i <= j < |log| ==> log[j] != Gone(pid)
    ensures PhaseOf(log, pid) == Forked ==> forall j :: i < j < |log| ==> log[j].pid != pid
  {
    var last := log[|log| - 1];
    if last == Tracked(pid) {
      i := |log| - 1;
    } else {
      i := PhaseMeaning(log[..|log| - 1], pid);
      assert forall j :: 0 <= j < |log| - 1 ==> log[j] == log[..|log| - 1][j];
    }
  }

  lemma {:induction false} LegalPrefix(log: seq<Entry>, n: nat)
    requires Legal(log) && n <= |log|
    ensures Legal(log[..n])
  {
    if n == |log| {
      assert log[..n] == log;
    } else {
      assert log[..|log| - 1][..n] == log[..n];
      LegalPrefix(log[..|log| - 1], n);
    }
  }

  /** Entry k opens or continues a lifetime: the last thing said about its process before is that it was
    * tracked, at some position i. */
  ghost predicate FreshlyTracked(log: seq<Entry>, k: nat)
    requires k < |log|
  {
    exists i: nat :: i < k && log[i] == Tracked(log[k].pid) && forall j :: i < j < k ==> log[j].pid != log[k].pid
  }

  lemma LegalEntry(log: seq<Entry>, k: nat)
    requires Legal(log) && k < |log|
    ensures Legal(log[..k]) && LegalNext(log[..k], log[k])
  {
    LegalPrefix(log, k + 1);
    assert log[..k + 1][..k] == log[..k];
  }

  /** Nothing but announcements is ever logged for pid 0. */
  lemma ZeroNeverTracked(log: seq<Entry>, i: nat)
    requires Legal(log) && i < |log|
    ensures log[i] != Tracked(0)
  {
    LegalEntry(log, i);
  }

  lemma LegalAnnouncement(log: seq<Entry>, k: nat)
    requires Legal(log) && k < |log| && log[k].Specialize?
    ensures IsApp(log[k].uid) && (log[k].pid != 0 <==> FreshlyTracked(log, k))
  {
    LegalEntry(log, k);
    hide Legal, PhaseOf, IsApp;
    if log[k].pid != 0 {
      var i := PhaseMeaning(log[..k], log[k].pid);
      assert log[i] == log[..k][i];
      assert forall j :: i < j < k ==> log[j] == log[..k][j];
      assert FreshlyTracked(log, k);
    } else {
      forall i: nat | i < k
        ensures log[i] != Tracked(0)
      {
        ZeroNeverTracked(log, i);
      }
    }
  }

  /** Every announcement, in every run, is of an app; and it lies in a tracked lifetime of its process in which
    * nothing was announced before exactly when its pid is not 0. */
  lemma AnnouncedOnce(es: seq<Event>, k: nat)
    requires RealPids(es)
    requires k < |After(Init(), es).log| && After(Init(), es).log[k].Specialize?
    ensures var log := After(Init(), es).log;
            IsApp(log[k].uid) && (log[k].pid != 0 <==> FreshlyTracked(log, k))
  {
    EveryRunIsLegal(es);
    LegalAnnouncement(After(Init(), es).log, k);
  }

  /** When a hook call or a report is announced: for an app uid, if the first slot with its pid exists and is not
    * specialized. With pid 0 that is the first free slot, so such a report is announced unless that slot has been
    * announced since a process was last put into it, or no slot is free. */
  lemma AnnouncedWhen(s: State, pid: nat, uid: U32)
    ensures var announced := IsApp(uid) && exists i: nat ::
              i < |s.slots| && s.slots[i].pid == pid && !s.slots[i].data.specialized
              && forall j :: 0 <= j < i ==> s.slots[j].pid != pid;
            forall e :: e in {UidChange(pid, uid), UserspaceReport(pid, uid)} ==>
              Step(s, e).log == if announced then s.log + [Specialize(pid, uid)] else s.log
  {
    var k := SlotOf(s.slots, pid);
    if k.Some? {
      forall i: nat | i < |s.slots| && s.slots[i].pid == pid && forall j :: 0 <= j < i ==> s.slots[j].pid != pid
        ensures i == k.value
      {
      }
    }
  }

  /** For example, a report that names pid 0 before any process exists. */
  lemma PidZeroIsAnnounced()
    ensures After(Init(), [UserspaceReport(0, 10000)]).log == [Specialize(0, 10000)]
    ensures !FreshlyTracked([Specialize(0, 10000)], 0)
  {
    var e := UserspaceReport(0, 10000);
    assert SlotOf(Init().slots, 0) == Some(0);
    assert After(Init(), [e]) == After(Step(Init(), e), []);
  }

  class Orchestrator {
    const slots: array<Child>
    ghost var log: seq<Entry>

    constructor ()
      ensures Valid() && Now() == Init() && fresh(slots)
    {
      slots := new Child[MAX_CHILDREN](_ => Slot(0, ChildState(0, false)));
      log := [];
    }

    ghost predicate Valid()
      reads this
    {
      slots.Length == MAX_CHILDREN
    }

    ghost function Now(): State
      reads this, slots
    {
      State(slots[..], log)
    }

    /** zo_on_fork with zo_track */
    method OnFork(pid: nat, leader: bool, fromZygote: bool)
      requires Valid()
      modifies `log, slots
      ensures Valid() && Now() == Step(old(Now()), Fork(pid, leader, fromZygote))
    {
      if !leader || !fromZygote {
        return;
      }
      var i := FindSlot(slots, pid);
      if i.None? {
        i := FindSlot(slots, 0);
        if i.Some? {
          slots[i.value] := Slot(pid, ChildState(0xFFFF_FFFF, false));
          log := log + [Tracked(pid)];
        }
      }
    }

    /** zo_on_free; the result says whether the process's brokered files are released. */
    method OnFree(pid: nat, leader: bool) returns (release: bool)
      requires Valid()
      modifies `log, slots
      ensures Valid() && Now() == Step(old(Now()), Free(pid, leader))
      ensures release <==> log == old(log) + [Gone(pid)]
    {
      if !leader {
        return false;
      }
      var i := FindSlot(slots, pid);
      if i.Some? {
        slots[i.value] := slots[i.value].(pid := 0);
        log := log + [Gone(pid)];
      }
      release := i.Some?;
    }

    /** The body the two announcing functions have in common; the result is what is emitted. */
    method AnnounceApp(pid: nat, uid: U32) returns (emitted: Option<(nat, int)>)
      requires Valid()
      modifies `log, slots
      ensures Valid() && Now() == Announce(old(Now()), pid, uid)
      ensures match emitted
              case None => log == old(log)
              case Some((p, appid)) => p == pid && appid == uid % 100000 && log == old(log) + [Specialize(pid, uid)]
    {
      if uid < 10000 {
        return None;
      }
      if uid % 100000 >= 90000 {
        return None;
      }
      var i := FindSlot(slots, pid);
      if i.Some? && !slots[i.value].data.specialized {
        slots[i.value] := Slot(pid, ChildState(uid, true));
        log := log + [Specialize(pid, uid)];
        return Some((pid, uid % 100000));
      }
      return None;
    }

    /** tamisu_zygote_orch_on_uid_change, for the current process. */
    method OnUidChange(current: nat, newUid: U32) returns (emitted: Option<(nat, int)>)
      requires Valid()
      modifies `log, slots
      ensures Valid() && Now() == Step(old(Now()), UidChange(current, newUid))
      ensures emitted == if log == old(log) then None else Some((current, newUid % 100000))
    {
      emitted := AnnounceApp(current, newUid);
    }

    /** tamisu_zygote_orch_on_userspace_report, for any pid the report names. */
    method OnUserspaceReport(pid: nat, uid: U32) returns (emitted: Option<(nat, int)>)
      requires Valid()
      modifies `log, slots
      ensures Valid() && Now() == Step(old(Now()), UserspaceReport(pid, uid))
      ensures emitted == if log == old(log) then None else Some((pid, uid % 100000))
    {
      emitted := AnnounceApp(pid, uid);
    }
  }
}
