/** Replacing entries of the system call table and putting them back. */
module SyscallHook {
  import opened Basics
  import opened SwapTable

  const TABLE_SIZE := 16

  /** A function address. */
  type Fn = nat

  /** struct syscall_hook_entry */
  datatype Entry = Entry(nr: nat, orig: Fn)

  /** The system call table and the entries of the tracking table in use. */
  datatype State = State(table: seq<Fn>, entries: seq<Entry>)
  {
    ghost predicate Tracked(nr: nat) {
      exists i :: 0 <= i < |entries| && entries[i].nr == nr
    }

    predicate InRange(nr: int) {
      0 <= nr < |table|
    }

    /** No system call is tracked twice. */
    ghost predicate Wf() {
      && |entries| <= TABLE_SIZE
      && (forall i :: 0 <= i < |entries| ==> entries[i].nr < |table|)
      && (forall i, j :: 0 <= i < j < |entries| ==> entries[i].nr != entries[j].nr)
    }

    /** Everything that differs from the pristine table can be put back from what is tracked. */
    ghost predicate Restorable(pristine: seq<Fn>) {
      && Wf() && |table| == |pristine|
      && (forall i :: 0 <= i < |entries| ==> entries[i].orig == pristine[entries[i].nr])
      && (forall k: nat :: k < |table| && !Tracked(k) ==> table[k] == pristine[k])
    }

    /** Hooking a system call that is not tracked while the tracking table is full. */
    ghost predicate Overflows(nr: nat) {
      !Tracked(nr) && |entries| == TABLE_SIZE
    }

    ghost function Hook(nr: int, fn: Fn, patchOk: bool): State {
      if !InRange(nr) then this
      else State(if patchOk then table[nr := fn] else table,
                 if Tracked(nr) || |entries| >= TABLE_SIZE then entries else entries + [Entry(nr, table[nr])])
    }

    ghost function Unhook(nr: int, patchOk: bool): State {
      if InRange(nr) && patchOk && Tracked(nr) && Wf() then
        var at :| 0 <= at < |entries| && entries[at].nr == nr;
        State(table[nr := entries[at].orig], SwapRemoved(entries, at))
      else this
    }

    /** The table that an exit leaves, when writing the entries in fails does not succeed. */
    ghost predicate Exited(fails: set<nat>, after: State) {
      && after.entries == [] && |after.table| == |table|
      && (forall k: nat :: k < |table| && (!Tracked(k) || k in fails) ==> after.table[k] == table[k])
      && (forall i :: 0 <= i < |entries| && entries[i].nr < |table| && entries[i].nr !in fails ==>
                        after.table[entries[i].nr] == entries[i].orig)
    }
  }

  datatype Request =
    | DoHook(nr: int, fn: Fn, patchOk: bool)
    | DoUnhook(nr: int, patchOk: bool)

  ghost function Step(s: State, r: Request): State {
    match r
    case DoHook(nr, fn, patchOk) => s.Hook(nr, fn, patchOk)
    case DoUnhook(nr, patchOk) => s.Unhook(nr, patchOk)
  }

  ghost function After(s: State, reqs: seq<Request>): State
    decreases |reqs|
  {
    if reqs == [] then s else After(Step(s, reqs[0]), reqs[1..])
  }

  // ---- What a call changes ----

  /** The tracking table has that original for the system call. */
  ghost predicate Saved(s: State, nr: nat, orig: Fn) {
    exists i :: 0 <= i < |s.entries| && s.entries[i] == Entry(nr, orig)
  }

  /** A hook writes exactly its own entry of the table, if the write succeeds, and saves what it found there, if the
    * call is not tracked and fewer than sixteen are. */
  lemma HookLaw(s: State, nr: int, fn: Fn, patchOk: bool, k: nat, orig: Fn)
    requires s.Wf() && k < |s.table|
    ensures var t := s.Hook(nr, fn, patchOk);
            && |t.table| == |s.table| && t.table[k] == (if patchOk && nr == k then fn else s.table[k])
            && (Saved(t, k, orig) <==>
                Saved(s, k, orig) || (nr == k && orig == s.table[k] && |s.entries| < 16 && forall f :: !Saved(s, k, f)))
  {
    var t := s.Hook(nr, fn, patchOk);
    if s.Tracked(k) {
      var i :| 0 <= i < |s.entries| && s.entries[i].nr == k;
      assert s.entries[i] == Entry(k, s.entries[i].orig);
      assert Saved(s, k, s.entries[i].orig);
    }
    if Saved(s, k, orig) {
      var i :| 0 <= i < |s.entries| && s.entries[i] == Entry(k, orig);
      assert t.entries[i] == Entry(k, orig);
    }
    if nr == k && |s.entries| < 16 && !s.Tracked(k) {
      assert t.entries[|s.entries|] == Entry(k, s.table[k]);
    }
  }

  /** An unhook whose write succeeds puts exactly its own entry back to what was saved, and forgets exactly that. */
  lemma UnhookLaw(s: State, nr: int, patchOk: bool, k: nat, orig: Fn)
    requires s.Wf() && k < |s.table|
    ensures var t := s.Unhook(nr, patchOk);
            && |t.table| == |s.table|
            && (Saved(s, k, orig) ==> t.table[k] == if patchOk && nr == k then orig else s.table[k])
            && ((forall f :: !Saved(s, k, f)) ==> t.table[k] == s.table[k])
            && (Saved(t, k, orig) <==> Saved(s, k, orig) && !(patchOk && nr == k))
  {
    var t := s.Unhook(nr, patchOk);
    if s.Tracked(k) {
      var i :| 0 <= i < |s.entries| && s.entries[i].nr == k;
      assert s.entries[i] == Entry(k, s.entries[i].orig);
      assert Saved(s, k, s.entries[i].orig);
    }
    if s.InRange(nr) && patchOk && s.Tracked(nr) {
      var at :| 0 <= at < |s.entries| && s.entries[at].nr == nr && t == State(s.table[nr := s.entries[at].orig],
                                                                              SwapRemoved(s.entries, at));
      SwapRemovedElements(s.entries, at);
      SavedIn(s, k, orig);
      SavedIn(t, k, orig);
    }
  }

  lemma SavedIn(s: State, k: nat, orig: Fn)
    ensures Saved(s, k, orig) <==> Entry(k, orig) in s.entries
  {
  }

  /** A hook call is safe when there is room to track it, or it changes nothing that needs tracking. */
  ghost predicate Safe(s: State, r: Request, pristine: seq<Fn>) {
    match r
    case DoHook(nr, fn, patchOk) =>
      s.InRange(nr) && nr < |pristine| && patchOk && s.Overflows(nr) ==> fn == pristine[nr]
    case DoUnhook(_, _) => true
  }

  /** Along the run, every step is safe. */
  ghost predicate AllSafe(s: State, reqs: seq<Request>, pristine: seq<Fn>)
    decreases |reqs|
  {
    reqs == [] || (Safe(s, reqs[0], pristine) && AllSafe(Step(s, reqs[0]), reqs[1..], pristine))
  }

  /** Along the run, what is tracked always suffices to put everything back. */
  ghost predicate AlwaysRestorable(s: State, reqs: seq<Request>, pristine: seq<Fn>)
    decreases |reqs|
  {
    s.Restorable(pristine) && (reqs == [] || AlwaysRestorable(Step(s, reqs[0]), reqs[1..], pristine))
  }

  /** Along the run, no hook call meets a full tracking table. */
  ghost predicate NeverFull(s: State, reqs: seq<Request>)
    decreases |reqs|
  {
    reqs == [] ||
    ((reqs[0].DoHook? && s.InRange(reqs[0].nr) ==> !s.Overflows(reqs[0].nr)) &&
     NeverFull(Step(s, reqs[0]), reqs[1..]))
  }

  /** A step keeps everything restorable exactly when it is safe. */
  lemma StepRestorable(s: State, r: Request, pristine: seq<Fn>)
    requires s.Restorable(pristine)
    ensures Step(s, r).Restorable(pristine) <==> Safe(s, r, pristine)
    ensures Step(s, r).Wf()
  {
    match r
    case DoHook(nr, fn, patchOk) => HookRestorable(s, nr, fn, patchOk, pristine);
    case DoUnhook(nr, patchOk) => UnhookRestorable(s, nr, patchOk, pristine);
  }

  lemma HookRestorable(s: State, nr: int, fn: Fn, patchOk: bool, pristine: seq<Fn>)
    requires s.Restorable(pristine)
    ensures s.Hook(nr, fn, patchOk).Restorable(pristine) <==> Safe(s, DoHook(nr, fn, patchOk), pristine)
    ensures s.Hook(nr, fn, patchOk).Wf()
  {
    if s.InRange(nr) {
      var t := s.Hook(nr, fn, patchOk);
      forall k: nat
        ensures t.Tracked(k) <==> s.Tracked(k) || (k == nr && !s.Overflows(nr))
      {
        if s.Tracked(k) {
          var i :| 0 <= i < |s.entries| && s.entries[i].nr == k;
          assert t.entries[i].nr == k;
        } else if k == nr && !s.Overflows(nr) {
          assert t.entries[|s.entries|].nr == k;
        }
      }
      if !Safe(s, DoHook(nr, fn, patchOk), pristine) {
        assert t.table[nr] != pristine[nr] && !t.Tracked(nr);
      }
    }
  }

  /** There is only one entry to take out. */
  lemma UnhookIs(s: State, nr: int, at: nat)
    requires s.Wf() && s.InRange(nr) && at < |s.entries| && s.entries[at].nr == nr
    ensures s.Tracked(nr)
    ensures s.Unhook(nr, true) == State(s.table[nr := s.entries[at].orig], SwapRemoved(s.entries, at))
    ensures s.Unhook(nr, false) == s
  {
    hide SwapRemoved;
    assert s.Tracked(nr);
  }

  lemma UnhookWf(s: State, nr: int, patchOk: bool)
    requires s.Wf()
    ensures s.Unhook(nr, patchOk).Wf()
  {
    hide SwapRemoved;
  }

  /** Only the system call that was unhooked is no longer tracked. */
  lemma UnhookTracks(s: State, nr: nat, at: nat, k: nat)
    requires s.Wf() && at < |s.entries| && s.entries[at].nr == nr && k != nr && s.Tracked(k)
    ensures State(s.table, SwapRemoved(s.entries, at)).Tracked(k)
  {
    hide SwapRemoved;
    var es := SwapRemoved(s.entries, at);
    var i :| 0 <= i < |s.entries| && s.entries[i].nr == k;
    assert es[if i < |es| then i else at].nr == k;
  }

  lemma UnhookRestorable(s: State, nr: int, patchOk: bool, pristine: seq<Fn>)
    requires s.Restorable(pristine)
    ensures s.Unhook(nr, patchOk).Restorable(pristine)
  {
    if s.InRange(nr) && patchOk && s.Tracked(nr) {
      hide SwapRemoved;
      var t := s.Unhook(nr, patchOk);
      var at :| 0 <= at < |s.entries| && s.entries[at].nr == nr &&
                t == State(s.table[nr := s.entries[at].orig], SwapRemoved(s.entries, at));
      UnhookWf(s, nr, patchOk);
      forall k: nat | k < |t.table| && !t.Tracked(k)
        ensures t.table[k] == pristine[k]
      {
        if k != nr && s.Tracked(k) {
          UnhookTracks(s, nr, at, k);
        }
      }
    }
  }

  /** A run stays restorable throughout, whatever writes fail, exactly when each of its steps is safe. */
  lemma {:induction false} RunRestorable(s: State, reqs: seq<Request>, pristine: seq<Fn>)
    requires s.Restorable(pristine)
    ensures AlwaysRestorable(s, reqs, pristine) <==> AllSafe(s, reqs, pristine)
    ensures AllSafe(s, reqs, pristine) ==> After(s, reqs).Restorable(pristine)
    decreases |reqs|
  {
    hide State.Restorable, Safe, Step;
    if reqs != [] {
      StepRestorable(s, reqs[0], pristine);
      if Safe(s, reqs[0], pristine) {
        RunRestorable(Step(s, reqs[0]), reqs[1..], pristine);
      }
    }
  }

  /** In particular a run that never meets a full table is safe. */
  lemma {:induction false} NeverFullIsSafe(s: State, reqs: seq<Request>, pristine: seq<Fn>)
    requires NeverFull(s, reqs)
    ensures AllSafe(s, reqs, pristine)
    decreases |reqs|
  {
    if reqs != [] {
      NeverFullIsSafe(Step(s, reqs[0]), reqs[1..], pristine);
    }
  }

  /** A successful exit puts the whole table back exactly when everything was restorable. */
  lemma ExitRestores(s: State, after: State, pristine: seq<Fn>)
    requires s.Wf() && s.Exited({}, after) && |pristine| == |s.table|
    requires forall i :: 0 <= i < |s.entries| ==> s.entries[i].orig == pristine[s.entries[i].nr]
    ensures after.table == pristine <==> s.Restorable(pristine)
  {
    if s.Restorable(pristine) {
      forall k: nat | k < |s.table|
        ensures after.table[k] == pristine[k]
      {
      }
    } else {
      var k: nat :| k < |s.table| && !s.Tracked(k) && s.table[k] != pristine[k];
      assert after.table[k] != pristine[k];
    }
  }

  /** From an untouched table: hook, re-hook, fail and unhook at will, as long as each step is safe, then exit. */
  lemma RunThenExit(pristine: seq<Fn>, reqs: seq<Request>, after: State)
    requires AllSafe(State(pristine, []), reqs, pristine)
    requires After(State(pristine, []), reqs).Exited({}, after)
    ensures after.table == pristine
  {
    RunRestorable(State(pristine, []), reqs, pristine);
    ExitRestores(After(State(pristine, []), reqs), after, pristine);
  }

  /** In particular when the table is never full: at most sixteen system calls are hooked at a time. */
  lemma FewHooksThenExit(pristine: seq<Fn>, reqs: seq<Request>, after: State)
    requires NeverFull(State(pristine, []), reqs)
    requires After(State(pristine, []), reqs).Exited({}, after)
    ensures after.table == pristine
  {
    NeverFullIsSafe(State(pristine, []), reqs, pristine);
    RunThenExit(pristine, reqs, after);
  }

  /** A hook past the end of the tracking table outlives the exit. */
  lemma OverflowSurvives(s: State, nr: nat, fn: Fn, after: State)
    requires s.Wf() && nr < |s.table| && s.Overflows(nr)
    requires s.Hook(nr, fn, true).Exited({}, after)
    ensures after.table[nr] == fn
  {
    assert !s.Hook(nr, fn, true).Tracked(nr);
  }

  // ---- Seventeen hooks ----

  const SYSCALLS := 17

  /** Hooks for the system calls from nr on, all with function 1. */
  function HooksFrom(nr: nat): seq<Request>
    decreases SYSCALLS - nr
  {
    if nr >= SYSCALLS then [] else [DoHook(nr, 1, true)] + HooksFrom(nr + 1)
  }

  /** A table of seventeen zeros after the first n hooks. */
  function Hooked(n: nat): State {
    State(seq(SYSCALLS, k requires 0 <= k => if k < n then 1 else 0),
          seq(if n < TABLE_SIZE then n else TABLE_SIZE, k requires 0 <= k => Entry(k, 0)))
  }

  lemma HookOneMore(n: nat)
    requires n < SYSCALLS
    ensures Hooked(n).Hook(n, 1, true) == Hooked(n + 1)
    ensures n == TABLE_SIZE ==> Hooked(n).Overflows(n)
  {
    var s := Hooked(n);
    assert !s.Tracked(n);
    assert s.Hook(n, 1, true).table == Hooked(n + 1).table;
    assert s.Hook(n, 1, true).entries == Hooked(n + 1).entries;
  }

  lemma {:induction false} HookTheRest(n: nat)
    requires n <= SYSCALLS
    ensures After(Hooked(n), HooksFrom(n)) == Hooked(SYSCALLS)
    decreases SYSCALLS - n
  {
    if n < SYSCALLS {
      HookOneMore(n);
      HookTheRest(n + 1);
      assert HooksFrom(n)[1..] == HooksFrom(n + 1);
    }
  }

  lemma ExitAfterHooks(after: State)
    requires Hooked(SYSCALLS).Exited({}, after)
    ensures after.table == seq(SYSCALLS, k => if k < TABLE_SIZE then 0 else 1)
  {
    var s := Hooked(SYSCALLS);
    assert !s.Tracked(TABLE_SIZE);
    forall k: nat | k < TABLE_SIZE
      ensures after.table[k] == 0
    {
      assert s.entries[k] == Entry(k, 0);
    }
  }

  /** The run that shows it: seventeen hooks of distinct system calls from an untouched table; a successful exit
    * puts sixteen back and leaves the last. */
  lemma SeventeenthHookStays(after: State)
    requires After(State(seq(SYSCALLS, _ => 0), []), HooksFrom(0)).Exited({}, after)
    ensures after.table == seq(SYSCALLS, k => if k < TABLE_SIZE then 0 else 1)
    ensures after.table != seq(SYSCALLS, _ => 0)
  {
    hide After, HooksFrom, State.Exited;
    assert State(seq(SYSCALLS, _ => 0), []) == Hooked(0);
    HookTheRest(0);
    hide Hooked;
    ExitAfterHooks(after);
    assert after.table[TABLE_SIZE] == 1;
  }

  class SyscallHooks {
    const table: array?<Fn>      // tamisu_syscall_table, NULL until it is found
    const entries: array<Entry>  // hooked_entries
    var count: nat               // hooked_count

    constructor (table: array?<Fn>)
      ensures this.table == table && fresh(entries) && WfTable() && count == 0
    {
      this.table := table;
      entries := new Entry[TABLE_SIZE](_ => Entry(0, 0));
      count := 0;
    }

    ghost predicate WfTable()
      reads this, table, entries
    {
      && entries.Length == TABLE_SIZE && count <= TABLE_SIZE
      && (table == null ==> count == 0)
      && Now().Wf()
    }

    ghost function Now(): State
      requires count <= entries.Length
      reads this, table, entries
    {
      State(if table == null then [] else table[..], entries[..count])
    }

    /** patch_syscall_table; textOk is whether writing the read-only memory succeeds. */
    method PatchSyscallTable(nr: int, fn: Fn, textOk: bool) returns (ret: int)
      modifies table
      ensures ret == if table == null then -ENOENT else if !(0 <= nr < table.Length) then -EINVAL
                     else if !textOk then -EIO else 0
      ensures table != null ==> table[..] == if ret == 0 then old(table[..])[nr := fn] else old(table[..])
    {
      if table == null {
        return -ENOENT;
      }
      if nr < 0 || nr >= table.Length {
        return -EINVAL;
      }
      if !textOk {
        return -EIO;
      }
      table[nr] := fn;
      return 0;
    }

    /** The search both calls start with. */
    method FindEntry(nr: nat) returns (at: Option<nat>)
      requires WfTable()
      ensures match at
              case Some(i) => i < count && entries[i].nr == nr
              case None => !Now().Tracked(nr)
    {
      for i := 0 to count
        invariant forall j :: 0 <= j < i ==> entries[j].nr != nr
      {
        if entries[i].nr == nr {
          return Some(i);
        }
      }
      return None;
    }

    /** tamisu_syscall_table_hook; prev is what *old receives. */
    method Hook(nr: int, fn: Fn, textOk: bool) returns (ret: int, prev: Option<Fn>)
      requires WfTable()
      modifies table, entries, `count
      ensures WfTable() && Now() == old(Now()).Hook(nr, fn, textOk)
      ensures ret == if table == null then -ENOENT else if !(0 <= nr < table.Length) then -EINVAL
                     else if !textOk then -EIO else 0
      ensures prev == if table != null && 0 <= nr < table.Length then Some(old(table[nr])) else None
    {
      if table == null {
        return -ENOENT, None;
      }
      if nr < 0 || nr >= table.Length {
        return -EINVAL, None;
      }
      var orig := table[nr];
      prev := Some(orig);
      var at := FindEntry(nr);
      if at.None? && count < entries.Length {
        entries[count] := Entry(nr, orig);
        count := count + 1;
      }
      ret := PatchSyscallTable(nr, fn, textOk);
    }

    /** hooked_entries[i] = hooked_entries[--hooked_count] */
    method Drop(i: nat)
      requires i < count <= entries.Length
      modifies entries, `count
      ensures count == old(count) - 1 && entries[..count] == SwapRemoved(old(entries[..count]), i)
    {
      count := count - 1;
      entries[i] := entries[count];
    }

    /** tamisu_syscall_table_unhook */
    method Unhook(nr: int, textOk: bool) returns (ret: int)
      requires WfTable()
      modifies table, entries, `count
      ensures WfTable() && Now() == old(Now()).Unhook(nr, textOk)
      ensures ret == if table == null then -ENOENT else if !(0 <= nr < table.Length) then -EINVAL
                     else if !old(Now()).Tracked(nr) then -ENOENT else if !textOk then -EIO else 0
    {
      if table == null {
        return -ENOENT;
      }
      if nr < 0 || nr >= table.Length {
        return -EINVAL;
      }
      var at := FindEntry(nr);
      if at.None? {
        return -ENOENT;
      }
      UnhookIs(Now(), nr, at.value);
      UnhookWf(Now(), nr, textOk);
      hide SwapRemoved, State.Unhook;
      ret := PatchSyscallTable(nr, entries[at.value].orig, textOk);
      if ret == 0 {
        Drop(at.value);
      }
    }

    /** tamisu_syscall_hook_exit */
    method Exit(fails: set<nat>)
      requires WfTable()
      modifies table, `count
      ensures WfTable() && old(Now()).Exited(fails, Now())
    {
      if table == null {
        return;
      }
      ghost var was := Now();
      for i := 0 to count
        invariant entries[..|was.entries|] == was.entries
        invariant forall k: nat :: k < table.Length && (!was.Tracked(k) || k in fails) ==> table[k] == was.table[k]
        invariant forall j :: 0 <= j < i && was.entries[j].nr !in fails ==>
          table[was.entries[j].nr] == was.entries[j].orig
      {
        assert entries[i] == was.entries[i];
        if entries[i].nr !in fails {
          table[entries[i].nr] := entries[i].orig;
        }
      }
      count := 0;
    }
  }
}
