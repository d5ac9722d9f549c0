/** Handing open files of the daemon over to an app process: who owns each file reference. */
module FdBroker {
  import opened Basics
  import opened SlotTable

  const MAX_PENDING := 64
  const MAX_MODULE_FDS := 8

  /** One reference taken on an open file, numbered in the order they were taken. */
  type Ref = nat

  /** struct yz_pending: a process and the files waiting for it. */
  type Pending = Slot<seq<Ref>>

  /** The part of yz_handoff_cmd that matters here. */
  datatype Command = Command(pid: nat, nFds: nat)

  /** Where a call is, with the references its local variables hold. */
  datatype Call =
    | Idle
    | Taking(cmd: Command, files: seq<Ref>)   // handoff, before the lock
    | Dropping(files: seq<Ref>, ret: int)     // the fput loop at the end of any of the calls
    | Installing(files: seq<Ref>)             // delivery, after the lock

  /** Where exit is: before the check for file j of a slot, or between its two writes of a slot. */
  datatype Exit = NotExiting | AtFile(slot: nat, j: nat) | AtPid(slot: nat)

  datatype State = State(slots: seq<Pending>, calls: seq<Call>, exit: Exit, taken: nat, installed: seq<Ref>,
                         put: seq<Ref>)

  datatype Event =
    | Handoff(c: nat, cmd: Command)
    | Fget(c: nat, ok: bool)
    | Place(c: nat)
    | Deliver(c: nat, slot: nat, exiting: bool)
    | Install(c: nat, fdOk: bool)
    | Release(c: nat, pid: nat)
    | Fput(c: nat)
    | Return(c: nat)
    | ExitStart
    | ExitPut
    | ExitClearN
    | ExitClearPid
  {
    predicate OfExit() {
      ExitStart? || ExitPut? || ExitClearN? || ExitClearPid?
    }
  }

  // ---- The slot array ----

  /** The slot a handoff goes to: the one the pid already has, else the first free one. */
  function Target(slots: seq<Pending>, pid: nat): (i: Option<nat>)
    ensures i.Some? ==> i.value < |slots|
  {
    match SlotOf(slots, pid)
    case Some(k) => Some(k)
    case None => SlotOf(slots, 0)
  }

  /** How often a slot holds reference r, and how often a call's locals do. */
  function InSlot(r: Ref): Pending -> nat {
    (slot: Pending) => Count(slot.data, r)
  }

  function InCall(r: Ref): Call -> nat {
    (call: Call) => if call.Idle? then 0 else Count(call.files, r)
  }

  function Count(files: seq<Ref>, r: Ref): nat {
    if files == [] then 0 else (if files[0] == r then 1 else 0) + Count(files[1..], r)
  }

  // ---- Steps ----

  /** Whether a step can happen now. */
  predicate Enabled(s: State, e: Event) {
    match e
    case Handoff(c, cmd) => c < |s.calls| && s.calls[c].Idle?
    case Fget(c, ok) => c < |s.calls| && s.calls[c].Taking? && |s.calls[c].files| < s.calls[c].cmd.nFds
    case Place(c) => c < |s.calls| && s.calls[c].Taking? && |s.calls[c].files| == s.calls[c].cmd.nFds
    case Deliver(c, slot, exiting) => c < |s.calls| && s.calls[c].Idle? && slot < |s.slots|
    case Install(c, fdOk) => c < |s.calls| && s.calls[c].Installing? && s.calls[c].files != []
    case Release(c, pid) => c < |s.calls| && s.calls[c].Idle?
    case Fput(c) => c < |s.calls| && s.calls[c].Dropping? && s.calls[c].files != []
    case Return(c) => c < |s.calls| && (s.calls[c].Dropping? || s.calls[c].Installing?) && s.calls[c].files == []
    case ExitStart => s.exit.NotExiting? && s.slots != []
    case ExitPut => InSlots(s) && s.exit.AtFile? && s.exit.j < |s.slots[s.exit.slot].data|
    case ExitClearN => InSlots(s) && s.exit.AtFile? && s.exit.j >= |s.slots[s.exit.slot].data|
    case ExitClearPid => InSlots(s) && s.exit.AtPid?
  }

  predicate InSlots(s: State) {
    !s.exit.NotExiting? && s.exit.slot < |s.slots|
  }

  function Goto(s: State, c: nat, call: Call): State
    requires c < |s.calls|
  {
    s.(calls := s.calls[c := call])
  }

  function Step(s: State, e: Event): State
    requires Enabled(s, e)
  {
    match e
    case Handoff(c, cmd) =>
      Goto(s, c, if cmd.nFds > MAX_MODULE_FDS then Dropping([], -EINVAL) else Taking(cmd, []))
    case Fget(c, ok) =>
      var call := s.calls[c];
      if ok then Goto(s.(taken := s.taken + 1), c, Taking(call.cmd, call.files + [s.taken]))
      else Goto(s, c, Dropping(call.files, -EBADF))
    case Place(c) =>
      var call := s.calls[c];
      (match Target(s.slots, call.cmd.pid)
       case Some(i) =>
         Goto(s.(slots := s.slots[i := Slot(call.cmd.pid, call.files)]), c, Dropping(s.slots[i].data, 0))
       case None => Goto(s, c, Dropping(call.files, -ENOSPC)))
    case Deliver(c, slot, exiting) =>
      var files := s.slots[slot].data;
      Goto(s.(slots := s.slots[slot := Slot(0, [])]), c, if exiting then Dropping(files, 0) else Installing(files))
    case Install(c, fdOk) =>
      var files := s.calls[c].files;
      if fdOk then Goto(s.(installed := s.installed + [files[0]]), c, Installing(files[1..]))
      else Goto(s.(put := s.put + [files[0]]), c, Installing(files[1..]))
    case Release(c, pid) =>
      (match SlotOf(s.slots, pid)
       case Some(i) => Goto(s.(slots := s.slots[i := Slot(0, [])]), c, Dropping(s.slots[i].data, 0))
       case None => Goto(s, c, Dropping([], 0)))
    case Fput(c) =>
      var call := s.calls[c];
      Goto(s.(put := s.put + [call.files[0]]), c, Dropping(call.files[1..], call.ret))
    case Return(c) => Goto(s, c, Idle)
    case ExitStart => s.(exit := AtFile(0, 0))
    case ExitPut =>
      var at := s.exit;
      s.(put := s.put + [s.slots[at.slot].data[at.j]], exit := AtFile(at.slot, at.j + 1))
    case ExitClearN =>
      var i := s.exit.slot;
      s.(slots := s.slots[i := s.slots[i].(data := [])], exit := AtPid(i))
    case ExitClearPid =>
      var i := s.exit.slot;
      s.(slots := s.slots[i := s.slots[i].(pid := 0)],
      exit := if i + 1 < |s.slots| then AtFile(i + 1, 0) else NotExiting)
  }

  ghost predicate IsRun(s: State, es: seq<Event>)
    decreases |es|
  {
    es == [] || (Enabled(s, es[0]) && IsRun(Step(s, es[0]), es[1..]))
  }

  ghost function After(s: State, es: seq<Event>): State
    requires IsRun(s, es)
    decreases |es|
  {
    if es == [] then s else After(Step(s, es[0]), es[1..])
  }

  function Init(calls: nat): State {
    State(seq(MAX_PENDING, _ => Slot(0, [])), seq(calls, _ => Idle), NotExiting, 0, [], [])
  }

  // ---- Conservation ----

  function Total<T>(s: seq<T>, weight: T -> nat): nat {
    if s == [] then 0 else weight(s[0]) + Total(s[1..], weight)
  }

  /** The files of exit's slot that it has put already, although the slot still lists them. */
  function PutByExit(s: State): seq<Ref> {
    if s.exit.AtFile? && s.exit.slot < |s.slots| then
      var data := s.slots[s.exit.slot].data;
      if s.exit.j <= |data| then data[..s.exit.j] else data
    else []
  }

  /** How often reference r is listed anywhere. */
  function Listed(s: State, r: Ref): nat {
    Total(s.slots, InSlot(r)) + Total(s.calls, InCall(r)) + Count(s.installed, r) + Count(s.put, r)
  }

  /** How often reference r is owned: exit owns only those files of its slot that it has not put. */
  function Owned(s: State, r: Ref): int {
    Listed(s, r) - Count(PutByExit(s), r)
  }

  /** Every reference taken is in exactly one place, and no other reference is anywhere. */
  ghost predicate Conserved(s: State) {
    forall r: Ref :: Owned(s, r) == if r < s.taken then 1 else 0
  }

  /** No array is ever filled past its end. */
  ghost predicate Sizes(s: State) {
    && |s.slots| == MAX_PENDING
    && (forall i :: 0 <= i < |s.slots| ==> |s.slots[i].data| <= MAX_MODULE_FDS)
    && (forall c :: 0 <= c < |s.calls| && !s.calls[c].Idle? ==> |s.calls[c].files| <= MAX_MODULE_FDS)
    && (forall c :: 0 <= c < |s.calls| && s.calls[c].Taking? ==> s.calls[c].cmd.nFds <= MAX_MODULE_FDS)
  }

  lemma {:induction false} TotalUpdate<T>(s: seq<T>, i: nat, x: T, weight: T -> nat)
    requires i < |s|
    ensures Total(s[i := x], weight) + weight(s[i]) == Total(s, weight) + weight(x)
  {
    if i == 0 {
      assert s[i := x][1..] == s[1..];
    } else {
      assert s[i := x][1..] == s[1..][i - 1 := x];
      TotalUpdate(s[1..], i - 1, x, weight);
    }
  }

  lemma {:induction false} TotalZero<T>(s: seq<T>, weight: T -> nat)
    requires forall i :: 0 <= i < |s| ==> weight(s[i]) == 0
    ensures Total(s, weight) == 0
  {
    if s != [] {
      assert forall i :: 0 <= i < |s[1..]| ==> s[1..][i] == s[i + 1];
      TotalZero(s[1..], weight);
    }
  }

  lemma {:induction false} CountConcat(a: seq<Ref>, b: seq<Ref>, r: Ref)
    ensures Count(a + b, r) == Count(a, r) + Count(b, r)
  {
    if a == [] {
      assert a + b == b;
    } else {
      assert (a + b)[1..] == a[1..] + b;
      CountConcat(a[1..], b, r);
    }
  }

  /** The slot a step changes. */
  function Touched(s: State, e: Event): (i: Option<nat>)
    requires Enabled(s, e)
    ensures i.Some? ==> i.value < |s.slots|
  {
    match e
    case Place(c) => Target(s.slots, s.calls[c].cmd.pid)
    case Deliver(_, slot, _) => Some(slot)
    case Release(_, pid) => SlotOf(s.slots, pid)
    case ExitClearN => Some(s.exit.slot)
    case ExitClearPid => Some(s.exit.slot)
    case _ => None
  }

  /** A call takes or replaces the files of a slot between exit's first fput of one of them and its clearing of
    * the slot. Exit does not take the lock. */
  predicate Clash(s: State, e: Event)
    requires Enabled(s, e)
  {
    !e.OfExit() && s.exit.AtFile? && s.exit.j > 0 && Touched(s, e) == Some(s.exit.slot)
  }

  ghost predicate NoClash(s: State, es: seq<Event>)
    requires IsRun(s, es)
    decreases |es|
  {
    es == [] || (!Clash(s, es[0]) && NoClash(Step(s, es[0]), es[1..]))
  }

  /** A step changes at most one slot and one call. */
  lemma StepLocal(s: State, e: Event)
    requires Enabled(s, e)
    ensures var t, i := Step(s, e), Touched(s, e);
            && |t.slots| == |s.slots| && |t.calls| == |s.calls|
            && t.slots == (if i.Some? then s.slots[i.value := t.slots[i.value]] else s.slots)
            && t.calls == (if e.OfExit() then s.calls else s.calls[e.c := t.calls[e.c]])
            && s.taken <= t.taken <= s.taken + 1
            && (!e.OfExit() ==> t.exit == s.exit)
  {
    hide SlotOf, Target;
  }

  function LocalSlots(s: State, i: Option<nat>, r: Ref): nat
    requires i.Some? ==> i.value < |s.slots|
  {
    if i.Some? then Count(s.slots[i.value].data, r) else 0
  }

  function LocalCall(s: State, e: Event, r: Ref): nat
    requires !e.OfExit() ==> e.c < |s.calls|
  {
    if e.OfExit() then 0 else InCall(r)(s.calls[e.c])
  }

  /** What a step adds to the places where r is listed: a successful fget, and exit's fput, which leaves the file in
    * the slot until the slot is cleared. */
  function Added(s: State, e: Event, r: Ref): int
    requires Enabled(s, e)
  {
    (if s.taken <= r < Step(s, e).taken then 1 else 0)
    + (if e.ExitPut? then Count([s.slots[s.exit.slot].data[s.exit.j]], r) else 0)
    - if e.ExitClearN? then Count(s.slots[s.exit.slot].data, r) else 0
  }

  /** Apart from that, references move between that slot, that call and the two final places. */
  ghost predicate Moves(s: State, e: Event, r: Ref)
    requires Enabled(s, e)
  {
    var t, i := Step(s, e), Touched(s, e);
    && |t.slots| == |s.slots| && |t.calls| == |s.calls|
    && LocalSlots(t, i, r) + LocalCall(t, e, r) + Count(t.installed, r) + Count(t.put, r) ==
       LocalSlots(s, i, r) + LocalCall(s, e, r) + Count(s.installed, r) + Count(s.put, r) + Added(s, e, r)
  }

  lemma CallMoves(s: State, e: Event, r: Ref)
    requires Enabled(s, e) && (e.Handoff? || e.Fget? || e.Return?)
    ensures Moves(s, e, r)
  {
    if e.Fget? {
      CountConcat(s.calls[e.c].files, [s.taken], r);
    }
  }

  lemma SlotMoves(s: State, e: Event, r: Ref)
    requires Enabled(s, e) && (e.Place? || e.Deliver? || e.Release?)
    ensures Moves(s, e, r)
  {
    hide SlotOf, Target;
  }

  lemma FinalMoves(s: State, e: Event, r: Ref)
    requires Enabled(s, e) && (e.Install? || e.Fput?)
    ensures Moves(s, e, r)
  {
    var file := s.calls[e.c].files[0];
    CountConcat(s.installed, [file], r);
    CountConcat(s.put, [file], r);
  }

  lemma ExitMoves(s: State, e: Event, r: Ref)
    requires Enabled(s, e) && (e.ExitStart? || e.ExitPut? || e.ExitClearN? || e.ExitClearPid?)
    ensures Moves(s, e, r)
  {
    if e.ExitPut? {
      CountConcat(s.put, [s.slots[s.exit.slot].data[s.exit.j]], r);
    }
  }

  lemma StepMoves(s: State, e: Event, r: Ref)
    requires Enabled(s, e)
    ensures Moves(s, e, r)
  {
    hide *;
    match e
    case Handoff(_, _) => CallMoves(s, e, r);
    case Fget(_, _) => CallMoves(s, e, r);
    case Return(_) => CallMoves(s, e, r);
    case Place(_) => SlotMoves(s, e, r);
    case Deliver(_, _, _) => SlotMoves(s, e, r);
    case Release(_, _) => SlotMoves(s, e, r);
    case Install(_, _) => FinalMoves(s, e, r);
    case Fput(_) => FinalMoves(s, e, r);
    case ExitStart => ExitMoves(s, e, r);
    case ExitPut => ExitMoves(s, e, r);
    case ExitClearN => ExitMoves(s, e, r);
    case ExitClearPid => ExitMoves(s, e, r);
  }

  lemma StepListed(s: State, e: Event, r: Ref)
    requires Enabled(s, e)
    ensures Listed(Step(s, e), r) == Listed(s, r) + Added(s, e, r)
  {
    var t, i := Step(s, e), Touched(s, e);
    StepLocal(s, e);
    StepMoves(s, e, r);
    hide Step, Enabled, Touched, SlotOf, Target, Total, Count, Added;
    if !e.OfExit() {
      TotalUpdate(s.calls, e.c, t.calls[e.c], InCall(r));
    }
    if i.Some? {
      TotalUpdate(s.slots, i.value, t.slots[i.value], InSlot(r));
    }
  }

  /** Exit's own steps keep what it has put apart from what it owns. */
  lemma ExitPuts(s: State, e: Event, r: Ref)
    requires Enabled(s, e) && e.OfExit() && ExitOk(s)
    ensures Count(PutByExit(Step(s, e)), r) == Count(PutByExit(s), r) + Added(s, e, r)
  {
    if e.ExitPut? {
      var data, j := s.slots[s.exit.slot].data, s.exit.j;
      assert data[..j + 1] == data[..j] + [data[j]];
      CountConcat(data[..j], [data[j]], r);
    } else if e.ExitClearN? {
      var data := s.slots[s.exit.slot].data;
      assert PutByExit(s) == data;
    }
  }

  /** Exit has not passed the end of the files of its slot. */
  predicate ExitOk(s: State) {
    s.exit.AtFile? ==> s.exit.slot < |s.slots| && s.exit.j <= |s.slots[s.exit.slot].data|
  }

  /** Without a clash a step neither creates nor loses a reference, except for a successful fget. */
  lemma StepConserves(s: State, e: Event, r: Ref)
    requires Enabled(s, e) && ExitOk(s) && !Clash(s, e)
    ensures Owned(Step(s, e), r) == Owned(s, r) + if s.taken <= r < Step(s, e).taken then 1 else 0
  {
    StepListed(s, e, r);
    if e.OfExit() {
      ExitPuts(s, e, r);
      assert Step(s, e).taken == s.taken;
    } else {
      QuietPrefix(s, e);
    }
  }

  lemma QuietPrefix(s: State, e: Event)
    requires Enabled(s, e) && !e.OfExit() && !Clash(s, e)
    ensures PutByExit(Step(s, e)) == PutByExit(s)
    ensures ExitOk(s) ==> ExitOk(Step(s, e))
  {
    StepLocal(s, e);
    hide Step, Enabled, Touched;
  }

  lemma StepSizes(s: State, e: Event)
    requires Sizes(s) && Enabled(s, e)
    ensures Sizes(Step(s, e))
  {
    hide SlotOf, Target;
    match e
    case Handoff(_, _) =>
    case Fget(_, _) =>
    case Place(_) =>
    case _ =>
  }

  // ---- Exit against the other calls ----

  /** How often r has left the slots for good: installed, put, or on the way there. */
  function Gone(s: State, r: Ref): nat {
    Total(s.calls, InClosing(r)) + Count(s.installed, r) + Count(s.put, r)
  }

  function InClosing(r: Ref): Call -> nat {
    (call: Call) => if call.Dropping? || call.Installing? then Count(call.files, r) else 0
  }

  /** What holds as long as nothing clashed. */
  ghost predicate Clean(s: State) {
    && Conserved(s) && ExitOk(s)
    && forall r: Ref :: Count(PutByExit(s), r) <= Count(s.put, r)
  }

  lemma CleanStep(s: State, e: Event)
    requires Clean(s) && Enabled(s, e) && !Clash(s, e)
    ensures Clean(Step(s, e))
  {
    var t := Step(s, e);
    CleanExit(s, e);
    StepLocal(s, e);
    hide Owned, Step, Enabled, Clash, PutByExit, ExitOk;
    forall r: Ref
      ensures Owned(t, r) == if r < t.taken then 1 else 0
    {
      StepConserves(s, e, r);
    }
  }

  lemma CleanExit(s: State, e: Event)
    requires Clean(s) && Enabled(s, e) && !Clash(s, e)
    ensures ExitOk(Step(s, e))
    ensures forall r: Ref :: Count(PutByExit(Step(s, e)), r) <= Count(Step(s, e).put, r)
  {
    var t := Step(s, e);
    if !e.OfExit() {
      QuietPrefix(s, e);
    }
    forall r: Ref
      ensures Count(PutByExit(t), r) <= Count(t.put, r)
    {
      PutGrows(s, e, r);
      if e.OfExit() {
        ExitPuts(s, e, r);
      }
    }
  }

  lemma PutGrows(s: State, e: Event, r: Ref)
    requires Enabled(s, e)
    ensures Count(Step(s, e).put, r) >= Count(s.put, r) + if e.ExitPut? then Added(s, e, r) else 0
  {
    hide Count, SlotOf, Target;
    match e
    case Install(c, _) => CountConcat(s.put, [s.calls[c].files[0]], r);
    case Fput(c) => CountConcat(s.put, [s.calls[c].files[0]], r);
    case ExitPut => CountConcat(s.put, [s.slots[s.exit.slot].data[s.exit.j]], r);
    case _ =>
  }

  /** What is gone stays gone, in any run. */
  lemma StepGone(s: State, e: Event, r: Ref)
    requires Enabled(s, e)
    ensures Gone(Step(s, e), r) >= Gone(s, r)
  {
    var t := Step(s, e);
    StepLocal(s, e);
    LocalGone(s, e, r);
    hide Step, Enabled, Touched, Count, Total, InClosing;
    if !e.OfExit() {
      TotalUpdate(s.calls, e.c, t.calls[e.c], InClosing(r));
    }
  }

  ghost predicate GoneGrows(s: State, e: Event, r: Ref)
    requires Enabled(s, e)
  {
    var t := Step(s, e);
    && |t.calls| == |s.calls|
    && (if e.OfExit() then 0 else InClosing(r)(t.calls[e.c])) + Count(t.installed, r) + Count(t.put, r) >=
       (if e.OfExit() then 0 else InClosing(r)(s.calls[e.c])) + Count(s.installed, r) + Count(s.put, r)
  }

  lemma LocalGone(s: State, e: Event, r: Ref)
    requires Enabled(s, e)
    ensures GoneGrows(s, e, r)
  {
    hide SlotOf, Target;
    if e.OfExit() {
      PutGrows(s, e, r);
    } else if e.Install? || e.Fput? {
      FinalGone(s, e, r);
    } else {
      assert Step(s, e).put == s.put && Step(s, e).installed == s.installed;
    }
  }

  lemma FinalGone(s: State, e: Event, r: Ref)
    requires Enabled(s, e) && (e.Install? || e.Fput?)
    ensures GoneGrows(s, e, r)
  {
    var file := s.calls[e.c].files[0];
    CountConcat(s.installed, [file], r);
    CountConcat(s.put, [file], r);
  }

  lemma {:induction false} AfterGone(s: State, es: seq<Event>, r: Ref)
    requires IsRun(s, es)
    ensures Gone(After(s, es), r) >= Gone(s, r)
    decreases |es|
  {
    hide Gone;
    if es != [] {
      StepGone(s, es[0], r);
      AfterGone(Step(s, es[0]), es[1..], r);
    }
  }

  /** After a clash some reference is gone twice. */
  lemma ClashDoubles(s: State, e: Event) returns (r: Ref)
    requires Clean(s) && Enabled(s, e) && Clash(s, e)
    ensures Gone(Step(s, e), r) >= 2
  {
    var data := s.slots[s.exit.slot].data;
    r := data[0];
    CountConcat(data[..1], data[1..], r);
    CountConcat(data[..1], data[1..s.exit.j], r);
    assert data == data[..1] + data[1..] && data[..s.exit.j] == data[..1] + data[1..s.exit.j];
    assert Count(s.put, r) >= 1;
    var t := Step(s, e);
    hide SlotOf, Target;
    assert t.calls[e.c].files == data && (t.calls[e.c].Dropping? || t.calls[e.c].Installing?);
    AtLeast(t.calls, e.c, InClosing(r));
  }

  lemma {:induction false} AtLeast<T>(s: seq<T>, i: nat, weight: T -> nat)
    requires i < |s|
    ensures Total(s, weight) >= weight(s[i])
  {
    if i > 0 {
      AtLeast(s[1..], i - 1, weight);
    }
  }

  /** What is gone twice is owned twice. */
  lemma GoneIsOwned(s: State, r: Ref)
    ensures Owned(s, r) >= Gone(s, r)
  {
    ClosingIsHeld(s.calls, r);
    if PutByExit(s) != [] {
      var data, p := s.slots[s.exit.slot].data, PutByExit(s);
      AtLeast(s.slots, s.exit.slot, InSlot(r));
      assert data == p + data[|p|..];
      CountConcat(p, data[|p|..], r);
    }
  }

  lemma {:induction false} ClosingIsHeld(calls: seq<Call>, r: Ref)
    ensures Total(calls, InCall(r)) >= Total(calls, InClosing(r))
  {
    if calls != [] {
      ClosingIsHeld(calls[1..], r);
    }
  }

  lemma InitInv(calls: nat)
    ensures Clean(Init(calls)) && Sizes(Init(calls))
  {
    forall r: Ref
      ensures Owned(Init(calls), r) == 0
    {
      TotalZero(Init(calls).slots, InSlot(r));
      TotalZero(Init(calls).calls, InCall(r));
    }
  }

  lemma {:induction false} AfterSizes(s: State, es: seq<Event>)
    requires Sizes(s) && IsRun(s, es)
    ensures Sizes(After(s, es))
    decreases |es|
  {
    hide Sizes;
    if es != [] {
      StepSizes(s, es[0]);
      AfterSizes(Step(s, es[0]), es[1..]);
    }
  }

  lemma {:induction false} ConservedIff(s: State, es: seq<Event>)
    requires Clean(s) && IsRun(s, es)
    ensures Conserved(After(s, es)) <==> NoClash(s, es)
    decreases |es|
  {
    if es != [] {
      if Clash(s, es[0]) {
        var r := ClashDoubles(s, es[0]);
        AfterGone(Step(s, es[0]), es[1..], r);
        GoneIsOwned(After(s, es), r);
      } else {
        CleanStep(s, es[0]);
        ConservedIff(Step(s, es[0]), es[1..]);
      }
    }
  }

  /** In any interleaving of any number of calls and of exit, no array is overfilled, and every reference ever taken
    * is in exactly one place (one slot, one call's locals, an installed descriptor, or put once) exactly when no
    * call took or replaced the files of a slot that exit was working off. */
  lemma Conservation(calls: nat, es: seq<Event>)
    requires IsRun(Init(calls), es)
    ensures Sizes(After(Init(calls), es))
    ensures Conserved(After(Init(calls), es)) <==> NoClash(Init(calls), es)
  {
    InitInv(calls);
    AfterSizes(Init(calls), es);
    ConservedIff(Init(calls), es);
  }

  /** All calls have returned and no slot holds a file. */
  ghost predicate Quiet(s: State) {
    && (forall c :: 0 <= c < |s.calls| ==> s.calls[c].Idle?)
    && (forall i :: 0 <= i < |s.slots| ==> s.slots[i].data == [])
  }

  /** Once all calls have returned and all slots are empty, each reference was installed or put, exactly once and not
    * both, exactly when there was no such clash. */
  lemma NothingLeaks(calls: nat, es: seq<Event>)
    requires IsRun(Init(calls), es) && Quiet(After(Init(calls), es))
    ensures EachOnce(After(Init(calls), es)) <==> NoClash(Init(calls), es)
  {
    var s := After(Init(calls), es);
    Conservation(calls, es);
    QuietConserved(s);
  }

  /** Every reference taken was installed or put, once, and no other was. */
  ghost predicate EachOnce(s: State) {
    forall r: Ref :: Count(s.installed, r) + Count(s.put, r) == if r < s.taken then 1 else 0
  }

  lemma QuietConserved(s: State)
    requires Quiet(s)
    ensures Conserved(s) <==> EachOnce(s)
  {
    forall r: Ref
      ensures Owned(s, r) == Count(s.installed, r) + Count(s.put, r)
    {
      QuietOwned(s, r);
    }
    hide Owned, Count;
    if !Conserved(s) {
      var r: Ref :| Owned(s, r) != if r < s.taken then 1 else 0;
      assert !EachOnce(s);
    }
  }

  lemma QuietOwned(s: State, r: Ref)
    requires Quiet(s)
    ensures Owned(s, r) == Count(s.installed, r) + Count(s.put, r)
  {
    TotalZero(s.slots, InSlot(r));
    TotalZero(s.calls, InCall(r));
    assert PutByExit(s) == [];
  }

  /** For example: a file waits in a slot; exit puts it, and before exit clears the slot the file is delivered, and
    * installed. */
  function DeliveryDuringExit(): seq<Event> {
    Placing() + Exiting()
  }

  function Exiting(): seq<Event> {
    [ExitStart] + ([ExitPut] + ([Deliver(0, 0, false)] + ([Install(0, true)] + [ExitClearN])))
  }

  function Placing(): seq<Event> {
    [Handoff(0, Command(1, 1))] + ([Fget(0, true)] + ([Place(0)] + [Return(0)]))
  }

  /** The slots with the file of process 1 in the first one. */
  function Placed(): State {
    State(Init(1).slots[0 := Slot(1, [0])], [Idle], NotExiting, 1, [], [])
  }

  /** One more step in front of a run. */
  lemma RunCons(s: State, e: Event, t: State, es: seq<Event>, u: State)
    requires Enabled(s, e) && Step(s, e) == t && IsRun(t, es) && After(t, es) == u
    ensures IsRun(s, [e] + es) && After(s, [e] + es) == u
  {
    assert ([e] + es)[1..] == es;
  }

  lemma FirstFree()
    ensures SlotOf(Init(1).slots, 1) == None && SlotOf(Init(1).slots, 0) == Some(0)
  {
  }

  /** A state with one call. */
  function One(slots: seq<Pending>, call: Call, exit: Exit, installed: seq<Ref>, put: seq<Ref>): State {
    State(slots, [call], exit, 1, installed, put)
  }

  lemma PlacingSteps(x: seq<Pending>, y: seq<Pending>, cmd: Command)
    requires x == Placed().slots && y == Init(1).slots && cmd == Command(1, 1)
    ensures var s1 := Init(1).(calls := [Taking(cmd, [])]);
            && Enabled(Init(1), Handoff(0, cmd)) && Step(Init(1), Handoff(0, cmd)) == s1
            && Enabled(s1, Fget(0, true)) && Step(s1, Fget(0, true)) == One(y, Taking(cmd, [0]), NotExiting, [], [])
    ensures var s2, s3 := One(y, Taking(cmd, [0]), NotExiting, [], []), One(x, Dropping([], 0), NotExiting, [], []);
            && Enabled(s2, Place(0)) && Step(s2, Place(0)) == s3
            && Enabled(s3, Return(0)) && Step(s3, Return(0)) == Placed()
  {
    FirstFree();
    hide SlotOf;
    var none: seq<Ref> := [];
    assert none + [0] == [0];
    assert [Idle][0 := Taking(cmd, [])] == [Taking(cmd, [])];
    assert [Taking(cmd, [])][0 := Taking(cmd, [0])] == [Taking(cmd, [0])];
    assert [Taking(cmd, [0])][0 := Dropping([], 0)] == [Dropping([], 0)];
    assert [Dropping([], 0)][0 := Idle] == [Idle];
  }

  lemma RunPlacing()
    ensures IsRun(Init(1), Placing()) && After(Init(1), Placing()) == Placed()
  {
    var x, y, cmd := Placed().slots, Init(1).slots, Command(1, 1);
    var s1 := Init(1).(calls := [Taking(cmd, [])]);
    var s2, s3 := One(y, Taking(cmd, [0]), NotExiting, [], []), One(x, Dropping([], 0), NotExiting, [], []);
    PlacingSteps(x, y, cmd);
    RunNil(Placed());
    assert Placing() == [Handoff(0, cmd)] + ([Fget(0, true)] + ([Place(0)] + [Return(0)]));
    hide *;
    RunCons(s3, Return(0), Placed(), [], Placed());
    assert [Return(0)] + [] == [Return(0)];
    RunCons(s2, Place(0), s3, [Return(0)], Placed());
    RunCons(s1, Fget(0, true), s2, [Place(0)] + [Return(0)], Placed());
    RunCons(Init(1), Handoff(0, cmd), s1, [Fget(0, true)] + ([Place(0)] + [Return(0)]), Placed());
  }

  lemma DeliverySteps(x: seq<Pending>, y: seq<Pending>, end: State)
    requires x == Placed().slots && y == Init(1).slots && end == One(y, Installing([]), AtPid(0), [0], [0])
    ensures var s6, s7 := One(x, Idle, AtFile(0, 1), [], [0]), One(y, Installing([0]), AtFile(0, 1), [], [0]);
            Enabled(s6, Deliver(0, 0, false)) && Step(s6, Deliver(0, 0, false)) == s7
    ensures var s7 := One(y, Installing([0]), AtFile(0, 1), [], [0]);
            var s8 := One(y, Installing([]), AtFile(0, 1), [0], [0]);
            Enabled(s7, Install(0, true)) && Step(s7, Install(0, true)) == s8
    ensures var s8 := One(y, Installing([]), AtFile(0, 1), [0], [0]);
            Enabled(s8, ExitClearN) && Step(s8, ExitClearN) == end
  {
    assert x[0 := Slot(0, [])] == y && y[0 := Slot(0, [])] == y;
    assert [Idle][0 := Installing([0])] == [Installing([0])];
    assert [Installing([0])][0 := Installing([])] == [Installing([])];
    var none: seq<Ref> := [];
    var one: seq<Ref> := [0];
    assert none + [0] == one && one[1..] == none;
  }

  lemma ExitSteps(x: seq<Pending>)
    requires x == Placed().slots
    ensures Enabled(Placed(), ExitStart) && Step(Placed(), ExitStart) == One(x, Idle, AtFile(0, 0), [], [])
    ensures var s5 := One(x, Idle, AtFile(0, 0), [], []);
            Enabled(s5, ExitPut) && Step(s5, ExitPut) == One(x, Idle, AtFile(0, 1), [], [0])
  {
    var none: seq<Ref> := [];
    assert none + [0] == [0];
  }

  lemma ExitingIs()
    ensures Exiting() ==
            [ExitStart] + ([ExitPut] + ([Deliver(0, 0, false)] + ([Install(0, true)] + [ExitClearN])))
  {
  }

  lemma OwnedTwice(y: seq<Pending>)
    requires y == Init(1).slots
    ensures var end := One(y, Installing([]), AtPid(0), [0], [0]);
            end.installed == [0] && end.put == [0] && Owned(end, 0) >= 2
  {
  }

  lemma RunExiting() returns (end: State)
    ensures IsRun(Placed(), Exiting()) && After(Placed(), Exiting()) == end
    ensures end.installed == [0] && end.put == [0] && Owned(end, 0) >= 2
  {
    hide *;
    var x, y := Placed().slots, Init(1).slots;
    end := One(y, Installing([]), AtPid(0), [0], [0]);
    var s5, s6 := One(x, Idle, AtFile(0, 0), [], []), One(x, Idle, AtFile(0, 1), [], [0]);
    var s7, s8 := One(y, Installing([0]), AtFile(0, 1), [], [0]), One(y, Installing([]), AtFile(0, 1), [0], [0]);
    ExitSteps(x);
    OwnedTwice(y);
    DeliverySteps(x, y, end);
    RunNil(end);
    ExitingIs();
    RunCons(s8, ExitClearN, end, [], end);
    assert [ExitClearN] + [] == [ExitClearN];
    RunCons(s7, Install(0, true), s8, [ExitClearN], end);
    RunCons(s6, Deliver(0, 0, false), s7, [Install(0, true)] + [ExitClearN], end);
    RunCons(s5, ExitPut, s6, [Deliver(0, 0, false)] + ([Install(0, true)] + [ExitClearN]), end);
    RunCons(Placed(), ExitStart, s5, [ExitPut] + ([Deliver(0, 0, false)] + ([Install(0, true)] + [ExitClearN])), end);
  }

  lemma {:induction false} RunConcat(s: State, a: seq<Event>, b: seq<Event>)
    requires IsRun(s, a) && IsRun(After(s, a), b)
    ensures IsRun(s, a + b) && After(s, a + b) == After(After(s, a), b)
    decreases |a|
  {
    if a == [] {
      assert a + b == b;
    } else {
      assert (a + b)[1..] == a[1..] + b;
      RunConcat(Step(s, a[0]), a[1..], b);
    }
  }

  lemma InstalledAndPut()
    ensures IsRun(Init(1), DeliveryDuringExit())
    ensures var s := After(Init(1), DeliveryDuringExit());
            s.installed == [0] && s.put == [0] && Owned(s, 0) >= 2 && !Conserved(s)
  {
    hide Init, Placing, Exiting, Placed, IsRun, After, Owned;
    RunPlacing();
    var end := RunExiting();
    RunConcat(Init(1), Placing(), Exiting());
  }

  lemma StepOnePerPid(s: State, e: Event)
    requires OnePerPid(s.slots) && Enabled(s, e)
    ensures OnePerPid(Step(s, e).slots)
  {
    hide SlotOf;
    match e
    case Place(c) =>
    case _ => StepLocal(s, e);
  }

  lemma {:induction false} OneSlotPerProcess(calls: nat, es: seq<Event>)
    requires IsRun(Init(calls), es)
    ensures OnePerPid(After(Init(calls), es).slots)
  {
    AfterOnePerPid(Init(calls), es);
  }

  lemma {:induction false} AfterOnePerPid(s: State, es: seq<Event>)
    requires OnePerPid(s.slots) && IsRun(s, es)
    ensures OnePerPid(After(s, es).slots)
    decreases |es|
  {
    if es != [] {
      StepOnePerPid(s, es[0]);
      AfterOnePerPid(Step(s, es[0]), es[1..]);
    }
  }

  lemma {:induction false} RunSnoc(s: State, es: seq<Event>, e: Event)
    requires IsRun(s, es) && Enabled(After(s, es), e)
    ensures IsRun(s, es + [e]) && After(s, es + [e]) == Step(After(s, es), e)
    decreases |es|
  {
    if es == [] {
      assert IsRun(Step(s, e), []);
    } else {
      assert (es + [e])[1..] == es[1..] + [e];
      RunSnoc(Step(s, es[0]), es[1..], e);
    }
  }

  // ---- The code ----

  /** The slot array, with the protocol state it stands for. Each method up to ExitOne is one region of one call,
    * in whatever state the other calls are; the methods after it are whole calls, put together from regions. */
  class Broker {
    const slots: array<Pending>
    var taken: nat
    ghost var s: State

    constructor (ghost calls: nat)
      ensures Valid() && s == Init(calls) && fresh(slots)
    {
      slots := new Pending[MAX_PENDING](_ => Slot(0, []));
      taken := 0;
      s := Init(calls);
    }

    ghost predicate Valid()
      reads this, slots
    {
      slots[..] == s.slots && taken == s.taken && Sizes(s)
    }

    // ---- Regions ----

    /** The check at the start of a handoff. */
    method StartHandoff(ghost c: nat, cmd: Command) returns (ok: bool)
      requires Valid() && Enabled(s, Event.Handoff(c, cmd))
      modifies `s
      ensures Valid() && s == Step(old(s), Event.Handoff(c, cmd))
      ensures s.calls[c] == if ok then Taking(cmd, []) else Dropping([], -EINVAL)
    {
      hide SlotOf;
      StepSizes(s, Event.Handoff(c, cmd));
      s := Step(s, Event.Handoff(c, cmd));
      ok := cmd.nFds <= MAX_MODULE_FDS;
    }

    /** One fget of a handoff. */
    method FgetOne(ghost c: nat, fgetOk: bool) returns (file: Option<Ref>)
      requires Valid() && Enabled(s, Fget(c, fgetOk))
      modifies `s, `taken
      ensures Valid() && s == Step(old(s), Fget(c, fgetOk))
      ensures file == if fgetOk then Some(old(taken)) else None
    {
      hide SlotOf;
      StepSizes(s, Fget(c, fgetOk));
      s := Step(s, Fget(c, fgetOk));
      if !fgetOk {
        return None;
      }
      file := Some(taken);
      taken := taken + 1;
    }

    /** The locked region of a handoff: toDrop is what the call holds afterwards. */
    method PlaceLocked(ghost c: nat, cmd: Command, files: seq<Ref>) returns (ret: int, toDrop: seq<Ref>)
      requires Valid() && Enabled(s, Place(c)) && s.calls[c] == Taking(cmd, files)
      modifies `s, slots
      ensures Valid() && s == Step(old(s), Place(c))
      ensures s.calls[c] == Dropping(toDrop, ret)
    {
      hide SlotOf, Sizes;
      var p := FindSlot(slots, cmd.pid);
      if p.None? {
        p := FindSlot(slots, 0);
      }
      StepSizes(s, Place(c));
      s := Step(s, Place(c));
      if p.None? {
        return -ENOSPC, files;
      }
      toDrop := slots[p.value].data;
      slots[p.value] := Slot(cmd.pid, files);
      ret := 0;
    }

    /** The locked region of a delivery. */
    method DeliverLocked(ghost c: nat, slot: nat, exiting: bool) returns (files: seq<Ref>)
      requires Valid() && Enabled(s, Event.Deliver(c, slot, exiting))
      modifies `s, slots
      ensures Valid() && s == Step(old(s), Event.Deliver(c, slot, exiting))
      ensures s.calls[c] == if exiting then Dropping(files, 0) else Installing(files)
    {
      hide SlotOf, Sizes;
      StepSizes(s, Event.Deliver(c, slot, exiting));
      s := Step(s, Event.Deliver(c, slot, exiting));
      files := slots[slot].data;
      slots[slot] := Slot(0, []);
    }

    /** The locked region of a release. */
    method ReleaseLocked(ghost c: nat, pid: nat) returns (toPut: seq<Ref>)
      requires Valid() && Enabled(s, Event.Release(c, pid))
      modifies `s, slots
      ensures Valid() && s == Step(old(s), Event.Release(c, pid))
      ensures s.calls[c] == Dropping(toPut, 0)
    {
      hide SlotOf, Sizes;
      toPut := [];
      var p := FindSlot(slots, pid);
      StepSizes(s, Event.Release(c, pid));
      s := Step(s, Event.Release(c, pid));
      if p.Some? {
        toPut := slots[p.value].data;
        slots[p.value] := Slot(0, []);
      }
    }

    /** One turn of exit's inner loop, without the lock: the file to put, if there is one left. */
    method ExitFile(i: nat, j: nat) returns (file: Option<Ref>)
      requires Valid() && s.exit == AtFile(i, j) && i < slots.Length
      modifies `s, slots
      ensures file.Some? <==> Enabled(old(s), ExitPut)
      ensures file.Some? ==> Enabled(old(s), ExitPut) && file.value == old(s).slots[i].data[j]
      ensures Valid() && (if file.Some? then Enabled(old(s), ExitPut) && s == Step(old(s), ExitPut)
                          else Enabled(old(s), ExitClearN) && s == Step(old(s), ExitClearN))
    {
      hide SlotOf, Sizes;
      if j < |slots[i].data| {
        StepSizes(s, ExitPut);
        s := Step(s, ExitPut);
        return Some(slots[i].data[j]);
      }
      StepSizes(s, ExitClearN);
      s := Step(s, ExitClearN);
      slots[i] := slots[i].(data := []);
      file := None;
    }

    /** Exit's second write to a slot. */
    method ExitFree(i: nat)
      requires Valid() && s.exit == AtPid(i) && i < slots.Length
      modifies `s, slots
      ensures Enabled(old(s), ExitClearPid) && Valid() && s == Step(old(s), ExitClearPid)
    {
      hide SlotOf, Sizes;
      StepSizes(s, ExitClearPid);
      s := Step(s, ExitClearPid);
      slots[i] := slots[i].(pid := 0);
    }

    /** The regions that only touch the call's own locals and the file's reference: fput, the fd of one file, the
      * return, and the start of exit. */
    ghost method Local(e: Event)
      requires Valid() && Enabled(s, e) && (e.Fput? || e.Install? || e.Return? || e.ExitStart?)
      modifies `s
      ensures Valid() && s == Step(old(s), e)
    {
      hide SlotOf, Sizes;
      StepSizes(s, e);
      s := Step(s, e);
    }

    // ---- Whole calls ----

    /** The closing loop of a call: fput everything it still holds. */
    method DropAll(ghost c: nat, files: seq<Ref>, ghost start: State, ghost sofar: seq<Event>)
      returns (ghost trace: seq<Event>)
      requires Valid() && c < |s.calls| && s.calls[c].Dropping? && s.calls[c].files == files
      requires IsRun(start, sofar) && s == After(start, sofar)
      modifies `s
      ensures Valid() && IsRun(start, trace) && s == After(start, trace)
      ensures s == old(s).(calls := old(s).calls[c := Idle], put := old(s).put + files)
    {
      hide Sizes, IsRun, After;
      trace := sofar;
      for i := 0 to |files|
        invariant Valid() && IsRun(start, trace) && s == After(start, trace)
        invariant s == old(s).(calls := old(s).calls[c := Dropping(files[i..], old(s).calls[c].ret)],
                               put := old(s).put + files[..i])
      {
        RunSnoc(start, trace, Fput(c));
        Local(Fput(c));
        trace := trace + [Fput(c)];
      }
      RunSnoc(start, trace, Return(c));
      Local(Return(c));
      trace := trace + [Return(c)];
    }

    /** The fget loop of a handoff; fgetOk says which of the descriptors exist. */
    method TakeAll(ghost c: nat, nFds: nat, fgetOk: seq<bool>, ghost start: State, ghost sofar: seq<Event>)
      returns (ok: bool, files: seq<Ref>, ghost trace: seq<Event>)
      requires Valid() && c < |s.calls| && s.calls[c].Taking? && s.calls[c].files == [] && s.calls[c].cmd.nFds == nFds
      requires |fgetOk| == nFds && IsRun(start, sofar) && s == After(start, sofar)
      modifies `s, `taken
      ensures Valid() && IsRun(start, trace) && s == After(start, trace)
      ensures ok == (false !in fgetOk)
      ensures files == Fresh(old(taken), if ok then nFds else |files|)
      ensures !ok ==> |files| < nFds && !fgetOk[|files|] && false !in fgetOk[..|files|]
      ensures s == old(s).(taken := old(taken) + |files|,
                           calls := old(s).calls[c := if ok then Taking(old(s).calls[c].cmd, files)
                                                      else Dropping(files, -EBADF)])
    {
      hide Sizes, IsRun, After;
      files, trace := [], sofar;
      for i := 0 to nFds
        invariant Valid() && IsRun(start, trace) && s == After(start, trace)
        invariant files == Fresh(old(taken), i) && false !in fgetOk[..i]
        invariant s == old(s).(taken := old(taken) + i, calls := old(s).calls[c := Taking(old(s).calls[c].cmd, files)])
      {
        RunSnoc(start, trace, Fget(c, fgetOk[i]));
        var file := FgetOne(c, fgetOk[i]);
        trace := trace + [Fget(c, fgetOk[i])];
        if file.None? {
          return false, files, trace;
        }
        files := files + [file.value];
      }
      assert fgetOk[..nFds] == fgetOk;
      ok := true;
    }

    /** tamisu_zygote_ctl_handoff */
    method Handoff(ghost c: nat, cmd: Command, fgetOk: seq<bool>) returns (ret: int, ghost trace: seq<Event>)
      requires Valid() && c < |s.calls| && s.calls[c].Idle? && |fgetOk| == cmd.nFds
      modifies `s, `taken, slots
      ensures Valid() && IsRun(old(s), trace) && s == After(old(s), trace)
      ensures ret == HandoffResult(old(s), cmd, fgetOk)
      ensures s.calls == old(s).calls && s.installed == old(s).installed && old(taken) <= taken
      ensures ret == 0 ==>
        var i := Target(old(s).slots, cmd.pid).value;
        && s.slots == old(s).slots[i := Slot(cmd.pid, Fresh(old(taken), cmd.nFds))]
        && s.put == old(s).put + old(s).slots[i].data && taken == old(taken) + cmd.nFds
      ensures ret != 0 ==>
        s.slots == old(s).slots && s.put == old(s).put + Fresh(old(taken), taken - old(taken))
    {
      hide Sizes, IsRun, After, SlotOf;
      ghost var start := s;
      RunNil(start);
      RunSnoc(start, [], Event.Handoff(c, cmd));
      var fits := StartHandoff(c, cmd);
      trace := [] + [Event.Handoff(c, cmd)];
      if !fits {
        trace := DropAll(c, [], start, trace);
        return -EINVAL, trace;
      }
      var ok, files;
      ok, files, trace := TakeAll(c, cmd.nFds, fgetOk, start, trace);
      if !ok {
        trace := DropAll(c, files, start, trace);
        return -EBADF, trace;
      }
      RunSnoc(start, trace, Place(c));
      var toDrop;
      ret, toDrop := PlaceLocked(c, cmd, files);
      trace := trace + [Place(c)];
      trace := DropAll(c, toDrop, start, trace);
    }

    /** yz_deliver_cb; fdOk says which calls of get_unused_fd_flags succeed. */
    method Deliver(ghost c: nat, slot: nat, exiting: bool, fdOk: seq<bool>) returns (ghost trace: seq<Event>)
      requires Valid() && c < |s.calls| && s.calls[c].Idle? && slot < slots.Length
      requires |fdOk| == |slots[slot].data|
      modifies `s, slots
      ensures Valid() && IsRun(old(s), trace) && s == After(old(s), trace)
      ensures s.slots == old(s).slots[slot := Slot(0, [])] && s.calls == old(s).calls && s.taken == old(s).taken
      ensures exiting ==> s.installed == old(s).installed && s.put == old(s).put + old(s).slots[slot].data
      ensures !exiting ==>
        && s.installed == old(s).installed + Chosen(old(s).slots[slot].data, fdOk, true)
        && s.put == old(s).put + Chosen(old(s).slots[slot].data, fdOk, false)
    {
      hide Sizes, IsRun, After, Chosen;
      ghost var start := s;
      RunNil(start);
      RunSnoc(start, [], Event.Deliver(c, slot, exiting));
      var files := DeliverLocked(c, slot, exiting);
      trace := [] + [Event.Deliver(c, slot, exiting)];
      if exiting {
        trace := DropAll(c, files, start, trace);
        return;
      }
      trace := InstallAll(c, files, fdOk, start, trace);
    }

    /** The loop of a delivery over its files. */
    method InstallAll(ghost c: nat, files: seq<Ref>, fdOk: seq<bool>, ghost start: State, ghost sofar: seq<Event>)
      returns (ghost trace: seq<Event>)
      requires Valid() && c < |s.calls| && s.calls[c] == Installing(files) && |fdOk| == |files|
      requires IsRun(start, sofar) && s == After(start, sofar)
      modifies `s
      ensures Valid() && IsRun(start, trace) && s == After(start, trace)
      ensures s == old(s).(calls := old(s).calls[c := Idle],
                           installed := old(s).installed + Chosen(files, fdOk, true),
                           put := old(s).put + Chosen(files, fdOk, false))
    {
      hide Sizes, IsRun, After, Chosen;
      trace := sofar;
      ChosenNil(files, fdOk);
      for i := 0 to |files|
        invariant Valid() && IsRun(start, trace) && s == After(start, trace)
        invariant s == old(s).(calls := old(s).calls[c := Installing(files[i..])],
                               installed := old(s).installed + Chosen(files[..i], fdOk[..i], true),
                               put := old(s).put + Chosen(files[..i], fdOk[..i], false))
      {
        ChosenSnoc(files, fdOk, i);
        RunSnoc(start, trace, Install(c, fdOk[i]));
        Local(Install(c, fdOk[i]));
        trace := trace + [Install(c, fdOk[i])];
      }
      assert files[..|files|] == files && fdOk[..|files|] == fdOk;
      RunSnoc(start, trace, Return(c));
      Local(Return(c));
      trace := trace + [Return(c)];
    }

    /** tamisu_zygote_ctl_release */
    method Release(ghost c: nat, pid: nat) returns (ghost trace: seq<Event>)
      requires Valid() && c < |s.calls| && s.calls[c].Idle?
      modifies `s, slots
      ensures Valid() && IsRun(old(s), trace) && s == After(old(s), trace)
      ensures s.calls == old(s).calls && s.installed == old(s).installed && s.taken == old(s).taken
      ensures match SlotOf(old(s).slots, pid)
              case Some(i) => s.slots == old(s).slots[i := Slot(0, [])] && s.put == old(s).put + old(s).slots[i].data
              case None => s.slots == old(s).slots && s.put == old(s).put
    {
      hide Sizes, IsRun, After;
      ghost var start := s;
      RunNil(start);
      RunSnoc(start, [], Event.Release(c, pid));
      var toPut := ReleaseLocked(c, pid);
      trace := [] + [Event.Release(c, pid)];
      trace := DropAll(c, toPut, start, trace);
    }

    /** tamisu_zygote_ctl_exit: afterwards no slot holds anything, and everything a slot held was put. */
    method Exit() returns (ghost trace: seq<Event>)
      requires Valid() && s.exit.NotExiting?
      modifies `s, slots
      ensures Valid() && IsRun(old(s), trace) && s == After(old(s), trace)
      ensures s == old(s).(slots := seq(|old(s).slots|, _ => Slot(0, [])), put := old(s).put + Files(old(s).slots))
    {
      assert |s.slots| == slots.Length == MAX_PENDING;
      hide *;
      ghost var start := s;
      RunNil(start);
      WorkedNone(start);
      RunSnoc(start, [], ExitStart);
      Local(ExitStart);
      trace := ExitLoop(start, [] + [ExitStart]);
      WorkedAll(start);
    }

    method ExitLoop(ghost start: State, ghost sofar: seq<Event>) returns (ghost trace: seq<Event>)
      requires Valid() && IsRun(start, sofar) && s == After(start, sofar)
      requires |start.slots| == slots.Length && s == Worked(start, 0)
      modifies `s, slots
      ensures Valid() && IsRun(start, trace) && s == After(start, trace) && s == Worked(start, |start.slots|)
    {
      hide *;
      trace := sofar;
      for i := 0 to slots.Length
        invariant Valid() && IsRun(start, trace) && s == After(start, trace) && s == Worked(start, i)
      {
        WorkedMore(start, i);
        trace := ExitSlot(i, start, trace);
      }
    }

    /** One slot of exit's loop. */
    method ExitSlot(i: nat, ghost start: State, ghost sofar: seq<Event>) returns (ghost trace: seq<Event>)
      requires Valid() && s.exit == AtFile(i, 0) && i < slots.Length
      requires IsRun(start, sofar) && s == After(start, sofar)
      modifies `s, slots
      ensures Valid() && IsRun(start, trace) && s == After(start, trace)
      ensures s == old(s).(slots := old(s).slots[i := Slot(0, [])], put := old(s).put + old(s).slots[i].data,
                           exit := if i + 1 < slots.Length then AtFile(i + 1, 0) else NotExiting)
    {
      hide IsRun, After, Sizes;
      trace := sofar;
      ghost var data := s.slots[i].data;
      var j := 0;
      while true
        invariant Valid() && IsRun(start, trace) && s == After(start, trace)
        invariant j <= |data| && s == old(s).(put := old(s).put + data[..j], exit := AtFile(i, j))
        decreases |data| - j
      {
        ghost var e := if j < |data| then ExitPut else ExitClearN;
        RunSnoc(start, trace, e);
        var file := ExitFile(i, j);
        trace := trace + [e];
        if file.None? {
          break;
        }
        j := j + 1;
      }
      assert data[..j] == data;
      RunSnoc(start, trace, ExitClearPid);
      ExitFree(i);
      trace := trace + [ExitClearPid];
    }
  }

  /** All files of some slots, in order. */
  function Files(slots: seq<Pending>): seq<Ref> {
    if slots == [] then [] else Files(slots[..|slots| - 1]) + slots[|slots| - 1].data
  }

  /** What exit makes of a state when it has worked off the first n slots alone. */
  function Worked(s: State, n: nat): State
    requires n <= |s.slots|
  {
    s.(slots := seq(n, _ => Slot(0, [])) + s.slots[n..], put := s.put + Files(s.slots[..n]),
    exit := if n < |s.slots| then AtFile(n, 0) else NotExiting)
  }

  lemma WorkedNone(s: State)
    requires |s.slots| == MAX_PENDING && s.exit.NotExiting?
    ensures Enabled(s, ExitStart) && Step(s, ExitStart) == Worked(s, 0)
  {
    assert s.slots[..0] == [] && s.put + [] == s.put;
  }

  lemma WorkedMore(s: State, i: nat)
    requires i < |s.slots|
    ensures var a, b := Worked(s, i), Worked(s, i + 1);
            && a.exit == AtFile(i, 0) && |a.slots| == |s.slots|
            && b == a.(slots := a.slots[i := Slot(0, [])], put := a.put + a.slots[i].data, exit := b.exit)
            && b.exit == if i + 1 < |s.slots| then AtFile(i + 1, 0) else NotExiting
  {
    var a, b := Worked(s, i), Worked(s, i + 1);
    assert s.slots[..i + 1][..i] == s.slots[..i];
    assert a.slots[i] == s.slots[i];
    assert b.slots == a.slots[i := Slot(0, [])];
    assert b.put == a.put + s.slots[i].data;
  }

  lemma WorkedAll(s: State)
    ensures Worked(s, |s.slots|) ==
            s.(slots := seq(|s.slots|, _ => Slot(0, [])), put := s.put + Files(s.slots), exit := NotExiting)
  {
    assert s.slots[..|s.slots|] == s.slots;
  }

  lemma RunNil(s: State)
    ensures IsRun(s, []) && After(s, []) == s
  {
  }

  /** n references taken one after the other. */
  function Fresh(first: nat, n: nat): (refs: seq<Ref>)
    ensures |refs| == n
  {
    seq(n, i => first + i)
  }

  function HandoffResult(s: State, cmd: Command, fgetOk: seq<bool>): int {
    if cmd.nFds > MAX_MODULE_FDS then -EINVAL
    else if false in fgetOk then -EBADF
    else if Target(s.slots, cmd.pid).None? then -ENOSPC
    else 0
  }

  /** Which error a handoff gives, by its number: more than eight files; a bad descriptor; no slot of the process and
    * none free. */
  lemma HandoffErrors(s: State, cmd: Command, fgetOk: seq<bool>)
    ensures var ret := HandoffResult(s, cmd, fgetOk);
            var room := exists i :: 0 <= i < |s.slots| && (s.slots[i].pid == cmd.pid || s.slots[i].pid == 0);
            && (ret == -22 <==> cmd.nFds > 8)
            && (ret == -9 <==> cmd.nFds <= 8 && exists i :: 0 <= i < |fgetOk| && !fgetOk[i])
            && (ret == -28 <==> cmd.nFds <= 8 && !room && forall i :: 0 <= i < |fgetOk| ==> fgetOk[i])
            && (ret == 0 <==> cmd.nFds <= 8 && room && forall i :: 0 <= i < |fgetOk| ==> fgetOk[i])
  {
    if false in fgetOk {
      var i :| 0 <= i < |fgetOk| && fgetOk[i] == false;
    }
  }

  /** Where a handoff puts its files: into the process's own slot, else into the first free one. */
  lemma TargetIs(slots: seq<Pending>, pid: nat, i: nat)
    requires i < |slots|
    ensures Target(slots, pid) == Some(i) <==>
            || (slots[i].pid == pid && forall j :: 0 <= j < i ==> slots[j].pid != pid)
            || (slots[i].pid == 0 && (forall j :: 0 <= j < |slots| ==> slots[j].pid != pid)
                && forall j :: 0 <= j < i ==> slots[j].pid != 0)
  {
  }

  /** The files whose outcome was the given one, in order. */
  function Chosen(files: seq<Ref>, fdOk: seq<bool>, outcome: bool): seq<Ref>
    requires |fdOk| == |files|
  {
    if files == [] then []
    else
      var n := |files| - 1;
      Chosen(files[..n], fdOk[..n], outcome) + if fdOk[n] == outcome then [files[n]] else []
  }

  lemma ChosenNil(files: seq<Ref>, fdOk: seq<bool>)
    requires |fdOk| == |files|
    ensures Chosen(files[..0], fdOk[..0], true) == [] && Chosen(files[..0], fdOk[..0], false) == []
  {
  }

  lemma ChosenSnoc(files: seq<Ref>, fdOk: seq<bool>, i: nat)
    requires |fdOk| == |files| && i < |files|
    ensures forall b: bool :: Chosen(files[..i + 1], fdOk[..i + 1], b) ==
                              Chosen(files[..i], fdOk[..i], b) + if fdOk[i] == b then [files[i]] else []
  {
    assert files[..i + 1][..i] == files[..i] && fdOk[..i + 1][..i] == fdOk[..i];
  }
}
