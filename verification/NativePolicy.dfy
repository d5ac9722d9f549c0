/** The code of the grant protocol: each method is one lock-protected region (or one policy update) of
  * the zygote probe, and takes any state of the protocol it implements to the protocol's next state.
  */
module NativePolicy {
  import opened Basics
  import opened AvTab
  import opened PolicyDb
  import opened RuleSets
  import opened SepolicyBatch
  import opened SepolicyApply
  import opened FileLoadPolicy
  import opened GrantProtocol

  // ---------- the filters, one element at a time from the left ----------

  lemma {:induction false} FilterMore(entries: map<EntryId, Entry>, list: seq<EntryId>, i: nat, tgid: Pid)
    requires forall e :: e in list ==> e in entries
    requires i < |list|
    ensures WithTgid(entries, list[..i + 1], tgid) ==
            WithTgid(entries, list[..i], tgid) + if entries[list[i]].tgid == tgid then [list[i]] else []
    ensures WithoutTgid(entries, list[..i + 1], tgid) ==
            WithoutTgid(entries, list[..i], tgid) + if entries[list[i]].tgid == tgid then [] else [list[i]]
  {
    var a, b := list[..i], list[..i + 1];
    assert b == a + [list[i]];
    if i == 0 {
      assert a == [] && b == [list[0]] && b[1..] == [];
    } else {
      FilterMore(entries, list[1..], i - 1, tgid);
      assert a[1..] == list[1..][..i - 1] && b[1..] == list[1..][..i];
      assert a[0] == list[0] && b[0] == list[0];
    }
  }

  lemma {:induction false} RemovedAt(list: seq<EntryId>, i: nat)
    requires i < |list| && NoDup(list)
    ensures Removed(list, list[i]) == list[..i] + list[i + 1..]
  {
    if i == 0 {
      assert list[..0] + list[1..] == list[1..];
    } else {
      assert list[0] != list[i] && Removed(list, list[i]) == [list[0]] + Removed(list[1..], list[i]);
      RemovedAt(list[1..], i - 1);
      hide *;
      assert list[1..][i..] == list[i + 1..] && list[..i] == [list[0]] + list[1..][..i - 1];
      assert [list[0]] + (list[1..][..i - 1] + list[i + 1..]) == list[..i] + list[i + 1..];
      assert Removed(list, list[i]) == list[..i] + list[i + 1..];
    }
  }

  /** Clearing one more entry's pending flag. */
  lemma UnpendMore(entries: map<EntryId, Entry>, ids: seq<EntryId>, e: EntryId)
    requires e in entries
    ensures var es := Unpend(entries, ids);
            es[e := es[e].(pending := false)] == Unpend(entries, ids + [e])
  {
    var ids' := ids + [e];
    assert forall x :: x in ids' <==> x in ids || x == e;
  }

  /** The list walk after i of the entries of l: the ones kept stand before position k, the ones not yet seen behind
    * it, and the moved ones are off the list and no longer pending. */
  ghost predicate Walked(es: map<EntryId, Entry>, l: seq<EntryId>, tgid: Pid, i: int, k: int,
                         entries: map<EntryId, Entry>, list: seq<EntryId>, moved: seq<EntryId>)
  {
    && (forall e :: e in l ==> e in es) && 0 <= i <= |l|
    && k == |WithoutTgid(es, l[..i], tgid)| && list == WithoutTgid(es, l[..i], tgid) + l[i..]
    && moved == WithTgid(es, l[..i], tgid) && entries == Unpend(es, moved)
  }

  lemma WalkStart(es: map<EntryId, Entry>, l: seq<EntryId>, tgid: Pid)
    requires forall e :: e in l ==> e in es
    ensures Walked(es, l, tgid, 0, 0, es, l, [])
  {
    assert Unpend(es, []) == es && l[..0] == [] && l[0..] == l;
  }

  lemma WalkAt(es: map<EntryId, Entry>, l: seq<EntryId>, tgid: Pid, i: int, k: int,
               entries: map<EntryId, Entry>, list: seq<EntryId>, moved: seq<EntryId>)
    requires Walked(es, l, tgid, i, k, entries, list, moved) && 0 <= k < |list|
    ensures i < |l| && list[k] == l[i] && l[i] in entries && l[i] in es && entries[l[i]].tgid == es[l[i]].tgid
  {
    assert l[i] in l;
  }

  lemma WalkKeep(es: map<EntryId, Entry>, l: seq<EntryId>, tgid: Pid, i: int, k: int,
                 entries: map<EntryId, Entry>, list: seq<EntryId>, moved: seq<EntryId>)
    requires Walked(es, l, tgid, i, k, entries, list, moved) && 0 <= k < |list|
    requires list[k] in entries && entries[list[k]].tgid != tgid
    ensures Walked(es, l, tgid, i + 1, k + 1, entries, list, moved)
  {
    WalkAt(es, l, tgid, i, k, entries, list, moved);
    FilterMore(es, l, i, tgid);
    var kept := WithoutTgid(es, l[..i], tgid);
    assert WithoutTgid(es, l[..i + 1], tgid) == kept + [l[i]] && WithTgid(es, l[..i + 1], tgid) == moved;
    hide WithTgid, WithoutTgid, Unpend;
    assert l[i..] == [l[i]] + l[i + 1..];
    assert list == (kept + [l[i]]) + l[i + 1..];
  }

  lemma WalkMove(es: map<EntryId, Entry>, l: seq<EntryId>, tgid: Pid, i: int, k: int,
                 entries: map<EntryId, Entry>, list: seq<EntryId>, moved: seq<EntryId>)
    requires Walked(es, l, tgid, i, k, entries, list, moved) && 0 <= k < |list|
    requires list[k] in entries && entries[list[k]].tgid == tgid
    ensures Walked(es, l, tgid, i + 1, k, entries[list[k] := entries[list[k]].(pending := false)],
                   list[..k] + list[k + 1..], moved + [list[k]])
  {
    WalkAt(es, l, tgid, i, k, entries, list, moved);
    FilterMore(es, l, i, tgid);
    UnpendMore(es, moved, l[i]);
    var kept := WithoutTgid(es, l[..i], tgid);
    assert WithoutTgid(es, l[..i + 1], tgid) == kept && WithTgid(es, l[..i + 1], tgid) == moved + [l[i]];
    hide WithTgid, WithoutTgid, Unpend;
    assert l[i..] == [l[i]] + l[i + 1..];
    assert list[..k] == kept && list[k + 1..] == l[i + 1..];
  }

  lemma WalkEnd(es: map<EntryId, Entry>, l: seq<EntryId>, tgid: Pid, i: int, k: int,
                entries: map<EntryId, Entry>, list: seq<EntryId>, moved: seq<EntryId>)
    requires Walked(es, l, tgid, i, k, entries, list, moved) && i == |l|
    ensures list == WithoutTgid(es, l, tgid) && moved == WithTgid(es, l, tgid) && entries == Unpend(es, moved)
  {
    assert l[..i] == l && l[i..] == [];
  }

  /** The vectors of a policy, as a value. */
  ghost function VecOf(db: PolicyDb): (v: AvKey -> Av)
    requires db.Valid()
    reads db, db.htable
    ensures forall k :: v(k) == db.Vec(k)
  {
    var now := db.Now();
    k => if now.Wf() then now.Vec(k) else {}
  }

  /** What a batch of rule statements turns on and off: its rules' bits, or nothing when the policy cannot be
    * duplicated. On the auditdeny entries, which no grant concerns, dontaudit has no set reading. */
  ghost predicate BatchBits(sym: Symbols, sts: seq<AtomicStatement>, dupOk: bool, on: AvKey -> Av, off: AvKey -> Av)
    requires RuleStatements(sts)
  {
    forall k: AvKey :: k.effect != AuditDeny ==>
      && on(k) == (if dupOk then sym.TurnedOn(StatementRules(sts), k) else {})
      && off(k) == if dupOk then sym.TurnedOff(StatementRules(sts), k) else {}
  }

  /** Such bits, for a batch that has made now of the vectors was. */
  lemma BatchOnOff(sym: Symbols, sts: seq<AtomicStatement>, dupOk: bool, was: AvKey -> Av, now: AvKey -> Av)
    returns (on: AvKey -> Av, off: AvKey -> Av)
    requires RuleStatements(sts)
    requires !dupOk ==> forall k :: now(k) == was(k)
    requires dupOk ==>
               forall k: AvKey :: k.effect != AuditDeny ==> now(k) == sym.VecAfter(StatementRules(sts), k, was(k))
    ensures BatchBits(sym, sts, dupOk, on, off)
    ensures forall k :: now(k) == was(k) - off(k) + on(k)
  {
    hide RuleStatements;
    on := (k: AvKey) =>
      if !dupOk then {}
      else if k.effect == AuditDeny then now(k) - was(k)
      else sym.TurnedOn(StatementRules(sts), k);
    off := (k: AvKey) =>
      if !dupOk then {}
      else if k.effect == AuditDeny then was(k) - now(k)
      else sym.TurnedOff(StatementRules(sts), k);
    forall k: AvKey
      ensures now(k) == was(k) - off(k) + on(k)
    {
      if dupOk && k.effect != AuditDeny {
        sym.VecIsOffOn(StatementRules(sts), k, was(k));
      }
    }
  }

  class Probe {
    const se: SelinuxState
    // the allocated entries and the global pending list, under zp_native_policy_lock
    var entries: map<EntryId, Entry>
    var list: seq<EntryId>
    var next: EntryId

    constructor (se: SelinuxState, ghost base: AvKey -> Av)
      requires se.Valid() && forall k :: se.policy.Vec(k) == base(k)
      ensures this.se == se && Is(Init(base))
    {
      this.se := se;
      entries, list, next := map[], [], 0;
    }

    ghost function Tab(): Table
      reads this
    {
      Table(entries, list, next)
    }

    /** The kernel's state is the protocol state s: same table, same effective policy, and every
      * recorded grant was made under the current symbol tables. */
    ghost predicate Is(s: State)
      reads this, se, se.policy, se.policy.htable
    {
      && Tab() == s.table
      && se.Valid()
      && (forall k :: se.policy.Vec(k) == s.policy(k))
      && (forall h :: Holds(s, h) && GrantAt(s, h).HasAdditions() ==> GrantOf(se.policy.sym, GrantAt(s, h)))
    }

    /** Moves the process's entries from the pending list to a private list. */
    method MoveTgid(tgid: Pid) returns (moved: seq<EntryId>)
      requires ListAllocated(Tab())
      modifies `entries, `list
      ensures Tab() == Take(old(Tab()), tgid)
      ensures moved == old(WithTgid(entries, list, tgid))
    {
      ghost var es, l := entries, list;
      moved := [];
      var k := 0;
      ghost var i := 0;
      WalkStart(es, l, tgid);
      hide *;
      while k < |list|
        invariant Walked(es, l, tgid, i, k, entries, list, moved)
        invariant i <= |l| && |list| - k == |l| - i && k >= 0
        decreases |l| - i
      {
        WalkAt(es, l, tgid, i, k, entries, list, moved);
        var cur := list[k];
        if entries[cur].tgid != tgid {
          WalkKeep(es, l, tgid, i, k, entries, list, moved);
          k := k + 1;
        } else {
          WalkMove(es, l, tgid, i, k, entries, list, moved);
          entries := entries[cur := entries[cur].(pending := false)];
          list := list[..k] + list[k + 1..];
          moved := moved + [cur];
        }
        i := i + 1;
      }
      WalkEnd(es, l, tgid, i, k, entries, list, moved);
    }

    /** zp_publish_native_policy_state up to the end of its lock region: a grant without bits has nothing to publish,
      * one without an entry is taken back at once, any other goes on the pending list. published says which. */
    method Publish(c: CallId, tgid: Pid, g: Grant, allocOk: bool, dupOk: bool, ghost s: State)
      returns (published: bool, oldEntries: seq<EntryId>)
      requires Is(s) && CanGiveBack(s, c) && s.calls[c].g == g && ListAllocated(Tab()) && next !in entries
      modifies `entries, `list, `next, se`policy
      ensures published <==> g.HasAdditions() && allocOk
      ensures published ==> CanPublish(s, c) && Is(DoPublish(s, c, tgid))
                            && DoPublish(s, c, tgid).calls[c] == Arming(old(next), oldEntries)
      ensures !published ==> Is(DoGiveBack(s, c, dupOk))
    {
      published, oldEntries := false, [];
      if !g.HasAdditions() {
        EmptyGiveBack(c, g, dupOk, s);
        return;
      }
      if !allocOk {
        GiveBack(c, g, dupOk, s);
        return;
      }
      published := true;
      oldEntries := PublishEntry(c, tgid, g, s);
    }

    /** A grant without bits leaves the policy as it is when it is dropped. */
    lemma EmptyGiveBack(c: CallId, g: Grant, dupOk: bool, s: State)
      requires Is(s) && CanGiveBack(s, c) && s.calls[c].g == g && !g.HasAdditions()
      ensures Is(DoGiveBack(s, c, dupOk))
    {
      var s' := DoGiveBack(s, c, dupOk);
      assert forall k :: s.policy(k) - g.Bits(k) == s.policy(k);
      forall h | Holds(s', h)
        ensures Holds(s, h) && GrantAt(s, h) == GrantAt(s', h)
      {
      }
    }

    /** The new entry, and what it replaces. */
    method PublishEntry(c: CallId, tgid: Pid, g: Grant, ghost s: State) returns (oldEntries: seq<EntryId>)
      requires Is(s) && CanPublish(s, c) && s.calls[c].g == g && next !in entries
      modifies `entries, `list, `next
      ensures Is(DoPublish(s, c, tgid))
      ensures DoPublish(s, c, tgid).calls[c] == Arming(old(next), oldEntries)
    {
      var e := next;
      oldEntries := MoveTgid(tgid);
      entries := entries[e := Entry(tgid, g, true, Idle)];
      list := list + [e];
      next := next + 1;
      ghost var s' := DoPublish(s, c, tgid);
      forall h | Holds(s', h)
        ensures GrantAt(s', h).HasAdditions() ==> GrantOf(se.policy.sym, GrantAt(s', h))
      {
        if h == ByEntry(e) {
          assert Holds(s, ByCall(c));
        } else {
          assert Holds(s, h) && GrantAt(s, h) == GrantAt(s', h);
        }
      }
    }

    /** schedule_delayed_work on the entry that call c has published. If the entry was freed meanwhile, the write
      * goes to freed memory, and the table does not show it. */
    method Arm(c: CallId, e: EntryId, ghost s: State)
      requires Is(s) && CanArm(s, c) && s.calls[c].e == e
      modifies `entries
      ensures Is(DoArm(s, c))
    {
      if e in entries {
        entries := entries[e := entries[e].(timer := Armed)];
      }
      ghost var s' := DoArm(s, c);
      forall h | Holds(s', h)
        ensures Holds(s, h) && GrantAt(s, h) == GrantAt(s', h)
      {
      }
    }

    /** A policy batch of rule statements, which the daemon sends and the kernel applies to the same policy. */
    method PatchPolicy(sts: seq<AtomicStatement>, dupOk: bool, ghost s: State)
      returns (result: int, ghost on: AvKey -> Av, ghost off: AvKey -> Av)
      requires Is(s) && RuleStatements(sts) && WfStatements(sts) && Patchable(sts)
      modifies se`policy
      ensures Is(DoPatch(s, on, off))
      ensures BatchBits(se.sym, sts, dupOk, on, off)
    {
      var holder := new PolicyHolder(se.policy, (c, p) => (p, false));
      hide RuleStatements, WfStatements, Patchable;
      result := holder.PatchRules(sts, dupOk);
      se.policy := holder.policy;
      ghost var now := VecOf(se.policy);
      on, off := BatchOnOff(se.sym, sts, dupOk, s.policy, now);
      SameHolders(s, DoPatch(s, on, off));
    }

    lemma SameHolders(s: State, s': State)
      requires s'.table == s.table && s'.calls == s.calls
      ensures forall h :: Holds(s', h) ==> Holds(s, h) && GrantAt(s', h) == GrantAt(s, h)
    {
    }

    /** tamisu_zygote_probe_restore_native_policy, its lock region. */
    method Release(c: CallId, tgid: Pid, ghost s: State) returns (ret: int, todo: seq<EntryId>)
      requires Is(s) && CanRelease(s, c)
      modifies `entries, `list
      ensures ret == -EINVAL <==> tgid <= 0
      ensures tgid <= 0 ==> unchanged(this)
      ensures tgid > 0 ==> ret == 0 && Is(DoRelease(s, c, tgid))
                           && DoRelease(s, c, tgid).calls[c] == Draining(todo, AtCancel, None)
    {
      if tgid <= 0 {
        return -EINVAL, [];
      }
      ret := 0;
      todo := MoveTgid(tgid);
      ghost var s' := DoRelease(s, c, tgid);
      forall h | Holds(s', h)
        ensures GrantAt(s', h).HasAdditions() ==> GrantOf(se.policy.sym, GrantAt(s', h))
      {
        assert Holds(s, h) && GrantAt(s, h) == GrantAt(s', h);
      }
    }

    /** zp_native_policy_timeout, its lock region: whether the body goes on to restore. */
    method TimeoutLocked(e: EntryId, ghost s: State) returns (restore: bool)
      requires Is(s) && TimerAt(s, e, Running)
      requires InvStructure(s)
      modifies `entries, `list
      ensures Is(DoTimeoutLock(s, e))
      ensures restore <==> TimerAt(DoTimeoutLock(s, e), e, Claimed)
    {
      restore := false;
      assert EntryOk(s, e);
      if entries[e].pending {
        entries := entries[e := entries[e].(pending := false, timer := Claimed)];
        var i := 0;
        while list[i] != e
          invariant 0 <= i < |list| && list == old(list)
          invariant forall j :: 0 <= j < i ==> list[j] != e
          invariant e in list
          decreases |list| - i
        {
          i := i + 1;
        }
        RemovedAt(list, i);
        list := list[..i] + list[i + 1..];
        restore := true;
      } else {
        entries := entries[e := entries[e].(timer := Idle)];
      }
      ghost var s' := DoTimeoutLock(s, e);
      forall h | Holds(s', h)
        ensures GrantAt(s', h).HasAdditions() ==> GrantOf(se.policy.sym, GrantAt(s', h))
      {
        assert Holds(s, h) && GrantAt(s, h) == GrantAt(s', h);
      }
    }

    /** tamisu_file_load_policy_allow_current, called while an injection stages its files. */
    method AllowCurrent(c: CallId, file: bool, loaded: bool, labelled: bool, sctx: Option<U16>, tctx: Option<U16>,
                        dupOk: bool, ghost s: State)
      returns (ret: int, g: Grant)
      requires Is(s) && c !in s.calls
      modifies se`policy
      ensures CanAllow(s, c, g) && Is(DoAllow(s, c, g))
      ensures file && loaded && labelled && dupOk && !old(se.Unresolvable(sctx, tctx)) ==>
        var missing := old(Missing(se.policy, sctx.value, tctx.value));
        ret == 0 && g == if missing.HasAdditions() then missing else NO_GRANT
      ensures ret != 0 ==> se.policy == old(se.policy) && g == NO_GRANT
    {
      ret, g := se.AllowCurrent(file, loaded, labelled, sctx, tctx, dupOk);
      ghost var s' := DoAllow(s, c, g);
      forall h | Holds(s', h) && GrantAt(s', h).HasAdditions()
        ensures GrantOf(se.policy.sym, GrantAt(s', h))
      {
        if h != ByCall(c) {
          assert Holds(s, h) && GrantAt(s, h) == GrantAt(s', h);
        }
      }
    }

    /** zp_restore_native_policy_state on a record kept by an injection that failed. dupOk is whether duplicating the
      * policy succeeds; the callers do not look. */
    method GiveBack(c: CallId, g: Grant, dupOk: bool, ghost s: State)
      requires Is(s) && CanGiveBack(s, c) && s.calls[c].g == g
      modifies se`policy
      ensures Is(DoGiveBack(s, c, dupOk))
    {
      assert Holds(s, ByCall(c)) && GrantAt(s, ByCall(c)) == g;
      RestoreGrant(g, dupOk);
      ghost var s' := DoGiveBack(s, c, dupOk);
      forall h | Holds(s', h) && GrantAt(s', h).HasAdditions()
        ensures GrantOf(se.policy.sym, GrantAt(s', h))
      {
        assert Holds(s, h) && GrantAt(s, h) == GrantAt(s', h);
      }
    }

    method RestoreGrant(g: Grant, dupOk: bool)
      requires se.Valid() && (g.HasAdditions() ==> GrantOf(se.policy.sym, g))
      modifies se`policy
      ensures se.Valid()
      ensures forall k :: se.policy.Vec(k) == old(se.policy.Vec(k)) - if dupOk then g.Bits(k) else {}
    {
      var ret := se.Restore(g, true, dupOk);
    }

    /** cancel_delayed_work_sync on the head of a draining call's list, once it no longer waits for the body. */
    method Cancel(c: CallId, e: EntryId, ghost s: State)
      requires Is(s) && CanCancel(s, c) && s.calls[c].todo[0] == e
      modifies `entries
      ensures Is(DoCancel(s, c))
    {
      SetTimerTo(e, Idle, s, DoCancel(s, c));
    }

    /** The delay of an entry's work has passed. */
    method Fire(e: EntryId, ghost s: State)
      requires Is(s) && TimerAt(s, e, Armed)
      modifies `entries
      ensures Is(DoFire(s, e))
    {
      SetTimerTo(e, Running, s, DoFire(s, e));
    }

    method SetTimerTo(e: EntryId, timer: Timer, ghost s: State, ghost s': State)
      requires Is(s) && e in entries && s'.table == SetTimer(s.table, e, timer) && s'.policy == s.policy
      requires forall h :: Holds(s', h) ==> Holds(s, h) && GrantAt(s, h) == GrantAt(s', h)
      modifies `entries
      ensures Is(s')
    {
      entries := entries[e := entries[e].(timer := timer)];
    }

    /** A drained call returns. */
    lemma Returned(c: CallId, s: State)
      requires Is(s) && CanReturn(s, c)
      ensures Is(DoReturn(s, c))
    {
      var s' := DoReturn(s, c);
      forall h | Holds(s', h)
        ensures Holds(s, h) && GrantAt(s, h) == GrantAt(s', h)
      {
      }
    }

    /** zp_restore_native_policy_state on a list entry, by a draining call. */
    method RestoreHead(c: CallId, e: EntryId, dupOk: bool, ghost s: State)
      requires Is(s) && DrainingAt(s, c, AtRestore) && s.calls[c].todo[0] == e
      modifies `entries, se`policy
      ensures Is(DoRestoreHead(s, c, dupOk))
    {
      RestoreEntry(e, dupOk, s);
      ghost var s' := DoRestoreHead(s, c, dupOk);
      forall h | Holds(s', h) && GrantAt(s', h).HasAdditions()
        ensures GrantOf(se.policy.sym, GrantAt(s', h))
      {
        assert Holds(s, h) && GrantAt(s, h) == GrantAt(s', h);
      }
    }

    /** zp_restore_native_policy_state on a list entry, by the timer body that claimed it. */
    method TimeoutRestore(e: EntryId, dupOk: bool, ghost s: State)
      requires Is(s) && TimerAt(s, e, Claimed)
      modifies `entries, se`policy
      ensures Is(DoTimeoutRestore(s, e, dupOk))
    {
      RestoreEntry(e, dupOk, s);
      entries := entries[e := entries[e].(timer := Restored)];
      ghost var s' := DoTimeoutRestore(s, e, dupOk);
      forall h | Holds(s', h) && GrantAt(s', h).HasAdditions()
        ensures GrantOf(se.policy.sym, GrantAt(s', h))
      {
        assert Holds(s, h) && GrantAt(s, h) == GrantAt(s', h);
      }
    }

    method RestoreEntry(e: EntryId, dupOk: bool, ghost s: State)
      requires Is(s) && e in entries
      modifies `entries, se`policy
      ensures entries == old(entries)[e := old(entries[e]).(state := NO_GRANT)]
      ensures se.Valid()
      ensures forall k :: se.policy.Vec(k) == s.policy(k) - if dupOk then old(entries[e]).state.Bits(k) else {}
    {
      assert Holds(s, ByEntry(e)) && GrantAt(s, ByEntry(e)) == entries[e].state;
      RestoreGrant(entries[e].state, dupOk);
      entries := entries[e := entries[e].(state := NO_GRANT)];
    }

    /** kfree of an entry by a draining call. */
    method FreeHead(c: CallId, e: EntryId, ghost s: State)
      requires Is(s) && DrainingAt(s, c, AtFree) && s.calls[c].todo[0] == e
      modifies `entries
      ensures Is(DoFreeHead(s, c))
    {
      entries := entries - {e};
      ghost var s' := DoFreeHead(s, c);
      forall h | Holds(s', h)
        ensures Holds(s, h) && GrantAt(s, h) == GrantAt(s', h)
      {
      }
    }

    /** kfree of an entry by its timer body. */
    method TimeoutFree(e: EntryId, ghost s: State)
      requires Is(s) && TimerAt(s, e, Restored)
      modifies `entries
      ensures Is(DoTimeoutFree(s, e))
    {
      entries := entries - {e};
      ghost var s' := DoTimeoutFree(s, e);
      forall h | Holds(s', h)
        ensures Holds(s, h) && GrantAt(s, h) == GrantAt(s', h)
      {
      }
    }
  }
}
