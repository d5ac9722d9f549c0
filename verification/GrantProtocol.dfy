/** The life of a published grant: a pending list, a ten-second timer per entry, explicit restores and
  * same-process replacements, run by any number of threads.
  *
  * Every lock-protected region is one event, and so is every step outside the lock that touches an entry. A call
  * keeps its place between events, and so does a timer body, so that all interleavings are runs. Policy batches
  * run beside the grants.
  */
module GrantProtocol {
  import opened Basics
  import opened AvTab
  import opened FileLoadPolicy

  type EntryId = nat
  type CallId = nat
  type Pid = int

  /** Where an entry's delayed work is. */
  datatype Timer =
    | Idle      // not queued
    | Armed     // queued, will fire
    | Running   // the body has started and has not taken the lock
    | Claimed   // the body took the entry off the list
    | Restored  // the body has restored the policy and has only the free left

  /** struct zp_native_policy_pending */
  datatype Entry = Entry(tgid: Pid, state: Grant, pending: bool, timer: Timer)

  /** The allocated entries, the global pending list, and the next fresh entry. */
  datatype Table = Table(entries: map<EntryId, Entry>, list: seq<EntryId>, next: EntryId)

  // ---------- the lock regions on values ----------

  function WithTgid(entries: map<EntryId, Entry>, list: seq<EntryId>, tgid: Pid): seq<EntryId>
    requires forall e :: e in list ==> e in entries
  {
    if list == [] then []
    else if entries[list[0]].tgid == tgid then [list[0]] + WithTgid(entries, list[1..], tgid)
    else WithTgid(entries, list[1..], tgid)
  }

  function WithoutTgid(entries: map<EntryId, Entry>, list: seq<EntryId>, tgid: Pid): seq<EntryId>
    requires forall e :: e in list ==> e in entries
  {
    if list == [] then []
    else if entries[list[0]].tgid == tgid then WithoutTgid(entries, list[1..], tgid)
    else [list[0]] + WithoutTgid(entries, list[1..], tgid)
  }

  function Unpend(entries: map<EntryId, Entry>, ids: seq<EntryId>): map<EntryId, Entry> {
    map e | e in entries :: if e in ids then entries[e].(pending := false) else entries[e]
  }

  ghost predicate ListAllocated(t: Table) {
    forall e :: e in t.list ==> e in t.entries
  }

  /** Takes a process's entries off the list. */
  function Take(t: Table, tgid: Pid): Table
    requires ListAllocated(t)
  {
    t.(entries := Unpend(t.entries, WithTgid(t.entries, t.list, tgid)),
    list := WithoutTgid(t.entries, t.list, tgid))
  }

  /** Takes a process's old entries off the list and adds its new one, whose timer is not yet queued. */
  function Replace(t: Table, tgid: Pid, g: Grant): Table
    requires ListAllocated(t)
  {
    var t' := Take(t, tgid);
    Table(t'.entries[t.next := Entry(tgid, g, true, Idle)], t'.list + [t.next], t.next + 1)
  }

  function Removed(list: seq<EntryId>, e: EntryId): seq<EntryId> {
    if list == [] then []
    else if list[0] == e then list[1..]
    else [list[0]] + Removed(list[1..], e)
  }

  /** The timer body's lock region: claim the entry if it is still pending. */
  function TimeoutClaim(t: Table, e: EntryId): Table
    requires e in t.entries
  {
    if t.entries[e].pending then
      t.(entries := t.entries[e := t.entries[e].(pending := false, timer := Claimed)], list := Removed(t.list, e))
    else
      t.(entries := t.entries[e := t.entries[e].(timer := Idle)])
  }

  // ---------- the protocol ----------

  datatype DrainPc = AtCancel | AtRestore | AtFree

  /** A thread in the middle of a call. */
  datatype Call =
    | Holding(g: Grant)                        // an injection that was granted bits and has not published them
    | Arming(e: EntryId, todo: seq<EntryId>)   // a publication after its lock region, before it queues e's timer
    | Draining(todo: seq<EntryId>, pc: DrainPc, log: Option<EntryId>)
                                               // a restore or a replacement working off its entries; at its end a
                                               // publication logs what its own entry records
  {
    function Todo(): seq<EntryId> {
      if Holding? then [] else todo
    }
  }

  /** Who will restore and free an entry (an auxiliary record of the proof). */
  datatype Owner = OnList | OfTimeout | OfCall(c: CallId)

  datatype State = State(
    policy: AvKey -> Av,            // the published policy
    base: AvKey -> Av,              // what it would be without any grant
    stuck: AvKey -> Av,             // the bits that failed restores left in it
    table: Table,
    calls: map<CallId, Call>,
    owner: map<EntryId, Owner>,
    restored: seq<EntryId>,         // every entry passed to restore, in order
    freed: seq<EntryId>,            // every entry freed, in order
    wild: set<EntryId>)             // freed entries whose timer is queued or running all the same

  datatype Event =
    | Allow(c: CallId, g: Grant)
    | GiveBack(c: CallId, ok: bool)
    | Publish(c: CallId, tgid: Pid)
    | Arm(c: CallId)
    | Release(c: CallId, tgid: Pid)
    | Cancel(c: CallId)
    | RestoreHead(c: CallId, ok: bool)
    | FreeHead(c: CallId)
    | Return(c: CallId)
    | Fire(e: EntryId)
    | TimeoutLock(e: EntryId)
    | TimeoutRestore(e: EntryId, ok: bool)
    | TimeoutFree(e: EntryId)
    | Patch(on: AvKey -> Av, off: AvKey -> Av)
  {
    /** A call takes its process's entries off the list. */
    predicate Takes() {
      Publish? || Release?
    }

    /** A call works on the head of its list, or queues the timer of its own entry. */
    predicate OfEntry() {
      Arm? || Cancel? || RestoreHead? || FreeHead?
    }

    predicate OfTimer() {
      Fire? || TimeoutLock? || TimeoutRestore? || TimeoutFree?
    }
  }

  function Init(base: AvKey -> Av): State {
    State(base, base, k => {}, Table(map[], [], 0), map[], map[], [], [], {})
  }

  predicate DrainingAt(s: State, c: CallId, pc: DrainPc) {
    && c in s.calls && s.calls[c].Draining? && s.calls[c].pc == pc
    && s.calls[c].todo != [] && s.calls[c].todo[0] in s.table.entries
  }

  predicate TimerAt(s: State, e: EntryId, timer: Timer) {
    e in s.table.entries && s.table.entries[e].timer == timer
  }

  function SetTimer(t: Table, e: EntryId, timer: Timer): Table
    requires e in t.entries
  {
    t.(entries := t.entries[e := t.entries[e].(timer := timer)])
  }

  /** memset of the entry's recorded state after its restore. */
  function Clear(t: Table, e: EntryId): Table
    requires e in t.entries
  {
    t.(entries := t.entries[e := t.entries[e].(state := NO_GRANT)])
  }

  function Without<K, V>(m: map<K, V>, k: K): map<K, V> {
    m - {k}
  }

  function Owned(owner: map<EntryId, Owner>, ids: seq<EntryId>, c: CallId): map<EntryId, Owner> {
    map e | e in owner :: if e in ids then OfCall(c) else owner[e]
  }

  // Each event below is a guard, saying when the region can run, and its effect. What the kernel does when a wild timer
  // fires is undefined; no event does that, so a run ends there.

  /** tamisu_file_load_policy_allow_current grants bits that the policy does not allow yet. */
  ghost predicate CanAllow(s: State, c: CallId, g: Grant) {
    c !in s.calls && forall k :: s.policy(k) !! g.Bits(k)
  }

  ghost function DoAllow(s: State, c: CallId, g: Grant): State {
    s.(policy := k => s.policy(k) + g.Bits(k), calls := s.calls[c := Holding(g)])
  }

  /** The restore of a record takes its bits out of the policy. When the policy cannot be duplicated it fails, and
    * the record is cleared all the same: its bits stay in the policy, and nothing remembers them. */
  ghost function RestoreRecord(s: State, g: Grant, ok: bool): State {
    if ok then s.(policy := k => s.policy(k) - g.Bits(k), stuck := k => s.stuck(k) - g.Bits(k))
    else s.(stuck := k => s.stuck(k) + (g.Bits(k) * s.policy(k) - s.base(k)))
  }

  /** A failed injection, or one whose entry cannot be allocated, restores its grant itself. */
  predicate CanGiveBack(s: State, c: CallId) {
    c in s.calls && s.calls[c].Holding?
  }

  ghost function DoGiveBack(s: State, c: CallId, ok: bool): State
    requires CanGiveBack(s, c)
  {
    RestoreRecord(s, s.calls[c].g, ok).(calls := Without(s.calls, c))
  }

  ghost predicate CanPublish(s: State, c: CallId) {
    c in s.calls && s.calls[c].Holding? && s.calls[c].g.HasAdditions() && ListAllocated(s.table)
  }

  ghost function DoPublish(s: State, c: CallId, tgid: Pid): State
    requires CanPublish(s, c)
  {
    var oldEntries := WithTgid(s.table.entries, s.table.list, tgid);
    s.(table := Replace(s.table, tgid, s.calls[c].g),
    calls := s.calls[c := Arming(s.table.next, oldEntries)],
    owner := Owned(s.owner, oldEntries, c)[s.table.next := OnList])
  }

  predicate CanArm(s: State, c: CallId) {
    c in s.calls && s.calls[c].Arming?
  }

  /** schedule_delayed_work, after the lock is released: the entry may have been freed meanwhile. */
  function DoArm(s: State, c: CallId): State
    requires CanArm(s, c)
  {
    var e := s.calls[c].e;
    s.(table := if e in s.table.entries then SetTimer(s.table, e, Armed) else s.table,
    wild := if e in s.table.entries then s.wild else s.wild + {e},
    calls := s.calls[c := Draining(s.calls[c].todo, AtCancel, Some(e))])
  }

  ghost predicate CanRelease(s: State, c: CallId) {
    c !in s.calls && ListAllocated(s.table)
  }

  ghost function DoRelease(s: State, c: CallId, tgid: Pid): State
    requires CanRelease(s, c)
  {
    var todo := WithTgid(s.table.entries, s.table.list, tgid);
    s.(table := Take(s.table, tgid), calls := s.calls[c := Draining(todo, AtCancel, None)],
    owner := Owned(s.owner, todo, c))
  }

  /** cancel_delayed_work_sync: waits while the timer body runs, then leaves the timer idle. */
  predicate CanCancel(s: State, c: CallId) {
    DrainingAt(s, c, AtCancel) && s.table.entries[s.calls[c].todo[0]].timer in {Idle, Armed}
  }

  function DoCancel(s: State, c: CallId): State
    requires CanCancel(s, c)
  {
    s.(table := SetTimer(s.table, s.calls[c].todo[0], Idle), calls := s.calls[c := s.calls[c].(pc := AtRestore)])
  }

  ghost function DoRestoreHead(s: State, c: CallId, ok: bool): State
    requires DrainingAt(s, c, AtRestore)
  {
    var e := s.calls[c].todo[0];
    RestoreRecord(s, s.table.entries[e].state, ok).(table := Clear(s.table, e),
    calls := s.calls[c := s.calls[c].(pc := AtFree)], restored := s.restored + [e])
  }

  function DoFreeHead(s: State, c: CallId): State
    requires DrainingAt(s, c, AtFree)
  {
    var e := s.calls[c].todo[0];
    s.(table := s.table.(entries := Without(s.table.entries, e)), owner := Without(s.owner, e),
    calls := s.calls[c := Draining(s.calls[c].todo[1..], AtCancel, s.calls[c].log)], freed := s.freed + [e],
    wild := if s.table.entries[e].timer == Idle then s.wild else s.wild + {e})
  }

  predicate CanReturn(s: State, c: CallId) {
    c in s.calls && s.calls[c].Draining? && s.calls[c].todo == []
  }

  function DoReturn(s: State, c: CallId): State {
    s.(calls := Without(s.calls, c))
  }

  function DoFire(s: State, e: EntryId): State
    requires TimerAt(s, e, Armed)
  {
    s.(table := SetTimer(s.table, e, Running))
  }

  function DoTimeoutLock(s: State, e: EntryId): State
    requires TimerAt(s, e, Running)
  {
    s.(table := TimeoutClaim(s.table, e),
    owner := if s.table.entries[e].pending then s.owner[e := OfTimeout] else s.owner)
  }

  ghost function DoTimeoutRestore(s: State, e: EntryId, ok: bool): State
    requires TimerAt(s, e, Claimed)
  {
    RestoreRecord(s, s.table.entries[e].state, ok).(table := SetTimer(Clear(s.table, e), e, Restored),
    restored := s.restored + [e])
  }

  /** A policy batch is applied to a copy and published under the policy's mutex: bits go on and off. What a batch
    * says of a bit that a failed restore had left behind replaces it. */
  ghost function DoPatch(s: State, on: AvKey -> Av, off: AvKey -> Av): State {
    s.(policy := k => s.policy(k) - off(k) + on(k), base := k => s.base(k) - off(k) + on(k),
    stuck := k => s.stuck(k) - off(k) - on(k))
  }

  function DoTimeoutFree(s: State, e: EntryId): State
    requires TimerAt(s, e, Restored)
  {
    s.(table := s.table.(entries := Without(s.table.entries, e)), owner := Without(s.owner, e),
    freed := s.freed + [e])
  }

  ghost predicate Enabled(s: State, ev: Event) {
    match ev
    case Allow(c, g) => CanAllow(s, c, g)
    case GiveBack(c, ok) => CanGiveBack(s, c)
    case Publish(c, tgid) => CanPublish(s, c)
    case Arm(c) => CanArm(s, c)
    case Release(c, tgid) => CanRelease(s, c)
    case Cancel(c) => CanCancel(s, c)
    case RestoreHead(c, ok) => DrainingAt(s, c, AtRestore)
    case FreeHead(c) => DrainingAt(s, c, AtFree)
    case Return(c) => CanReturn(s, c)
    case Fire(e) => TimerAt(s, e, Armed)
    case TimeoutLock(e) => TimerAt(s, e, Running)
    case TimeoutRestore(e, ok) => TimerAt(s, e, Claimed)
    case TimeoutFree(e) => TimerAt(s, e, Restored)
    case Patch(_, _) => true
  }

  ghost function Apply(s: State, ev: Event): State
    requires Enabled(s, ev)
  {
    match ev
    case Allow(c, g) => DoAllow(s, c, g)
    case GiveBack(c, ok) => DoGiveBack(s, c, ok)
    case Publish(c, tgid) => DoPublish(s, c, tgid)
    case Arm(c) => DoArm(s, c)
    case Release(c, tgid) => DoRelease(s, c, tgid)
    case Cancel(c) => DoCancel(s, c)
    case RestoreHead(c, ok) => DoRestoreHead(s, c, ok)
    case FreeHead(c) => DoFreeHead(s, c)
    case Return(c) => DoReturn(s, c)
    case Fire(e) => DoFire(s, e)
    case TimeoutLock(e) => DoTimeoutLock(s, e)
    case TimeoutRestore(e, ok) => DoTimeoutRestore(s, e, ok)
    case TimeoutFree(e) => DoTimeoutFree(s, e)
    case Patch(on, off) => DoPatch(s, on, off)
  }

  ghost predicate IsRun(s: State, evs: seq<Event>)
    decreases |evs|
  {
    evs == [] || (Enabled(s, evs[0]) && IsRun(Apply(s, evs[0]), evs[1..]))
  }

  ghost function After(s: State, evs: seq<Event>): State
    requires IsRun(s, evs)
    decreases |evs|
  {
    if evs == [] then s else After(Apply(s, evs[0]), evs[1..])
  }

  // ---------- who holds which bits ----------

  /** A place that can hold a recorded grant. */
  datatype Holder = ByCall(c: CallId) | ByEntry(e: EntryId)

  predicate Holds(s: State, h: Holder) {
    match h
    case ByCall(c) => c in s.calls && s.calls[c].Holding?
    case ByEntry(e) => e in s.table.entries
  }

  function GrantAt(s: State, h: Holder): Grant
    requires Holds(s, h)
  {
    match h
    case ByCall(c) => s.calls[c].g
    case ByEntry(e) => s.table.entries[e].state
  }

  /** The record that an event passes to restore, if any. */
  function Restoring(s: State, ev: Event): Option<Grant>
    requires Enabled(s, ev)
  {
    match ev
    case GiveBack(c, ok) => Some(s.calls[c].g)
    case RestoreHead(c, ok) => Some(s.table.entries[s.calls[c].todo[0]].state)
    case TimeoutRestore(e, ok) => Some(s.table.entries[e].state)
    case _ => None
  }

  /** Whose record an event passes to restore. */
  function RestoredHolder(s: State, ev: Event): Holder
    requires Enabled(s, ev) && Restoring(s, ev).Some?
  {
    match ev
    case GiveBack(c, _) => ByCall(c)
    case RestoreHead(c, _) => ByEntry(s.calls[c].todo[0])
    case TimeoutRestore(e, _) => ByEntry(e)
  }

  ghost function HeldBits(s: State, h: Holder, k: AvKey): Av {
    if Holds(s, h) then GrantAt(s, h).Bits(k) else {}
  }

  /** The union of all outstanding recorded grants on one key. */
  ghost function Granted(s: State, k: AvKey): Av {
    set p | p in ALL_BITS && exists h :: p in HeldBits(s, h, k)
  }

  /** A batch says something of a bit that is on loan. */
  ghost predicate OnLoan(s: State, on: AvKey -> Av, off: AvKey -> Av) {
    exists k, p :: p in on(k) + off(k) && p in Granted(s, k)
  }

  ghost predicate Clash(s: State, ev: Event) {
    ev.Patch? && OnLoan(s, ev.on, ev.off)
  }

  ghost predicate PolicyExact(s: State) {
    forall k :: s.policy(k) == s.base(k) + s.stuck(k) + Granted(s, k)
  }

  ghost predicate GrantsDisjoint(s: State) {
    && (forall k :: s.stuck(k) !! s.base(k))
    && (forall h, k :: HeldBits(s, h, k) !! s.base(k) + s.stuck(k))
    && (forall h, h', k :: h != h' ==> HeldBits(s, h, k) !! HeldBits(s, h', k))
  }

  // ---------- the invariant ----------

  ghost predicate NoDup(q: seq<EntryId>) {
    forall i, j :: 0 <= i < j < |q| ==> q[i] != q[j]
  }

  /** The policy has been restored for this entry and only its free is left. */
  ghost predicate PastRestore(s: State, e: EntryId) {
    && e in s.table.entries && e in s.owner
    && match s.owner[e]
       case OnList => false
       case OfTimeout => s.table.entries[e].timer == Restored
       case OfCall(c) => DrainingAt(s, c, AtFree) && s.calls[c].todo[0] == e
  }

  /** What holds of one entry id: where it is listed, who owns it and what its timer may be doing. */
  ghost predicate EntryOk(s: State, e: EntryId) {
    && (e in s.table.list ==> e in s.owner && s.owner[e] == OnList)
    && (e in s.owner <==> e in s.table.entries)
    && (e in s.table.entries ==>
          var en := s.table.entries[e];
          && (en.pending <==> s.owner[e] == OnList)
          && match s.owner[e]
             case OnList => e in s.table.list && en.timer in {Idle, Armed, Running}
                            && (en.timer == Idle ==> exists c :: ArmingAt(s, c, e))
             case OfTimeout => en.timer in {Claimed, Restored}
             case OfCall(c) => c in s.calls && e in s.calls[c].Todo() && en.timer in {Idle, Armed, Running})
  }

  /** Call c is about to queue e's timer. */
  predicate ArmingAt(s: State, c: CallId, e: EntryId) {
    c in s.calls && s.calls[c].Arming? && s.calls[c].e == e
  }

  /** What holds of one thread: it owns the entries it works off, and the timer it is about to queue is idle. */
  ghost predicate CallOk(s: State, c: CallId) {
    c in s.calls ==>
      var todo := s.calls[c].Todo();
      && NoDup(todo)
      && (forall e :: e in todo ==> e in s.table.entries && e in s.owner && s.owner[e] == OfCall(c))
      && (s.calls[c].Draining? && s.calls[c].pc != AtCancel ==> todo != [])
      && (s.calls[c].Arming? ==>
            var e := s.calls[c].e;
            && e < s.table.next && e !in todo
            && (e in s.table.entries ==> s.table.entries[e].timer == Idle))
  }

  /** No two calls are about to queue one timer. */
  ghost predicate CallPairOk(s: State, c: CallId, d: CallId) {
    c != d && c in s.calls && d in s.calls && s.calls[c].Arming? && s.calls[d].Arming? ==> s.calls[c].e != s.calls[d].e
  }

  /** No two listed entries belong to one process. */
  ghost predicate ListPairOk(s: State, e: EntryId, e': EntryId) {
    e in s.table.list && e' in s.table.list && e != e' && e in s.table.entries && e' in s.table.entries ==>
      s.table.entries[e].tgid != s.table.entries[e'].tgid
  }

  /** An entry's record is intact until its restore and cleared by it. */
  ghost predicate RecordOk(s: State, e: EntryId) {
    e in s.table.entries ==>
      if PastRestore(s, e) then s.table.entries[e].state == NO_GRANT else s.table.entries[e].state.HasAdditions()
  }

  /** An entry is in the restore history exactly from its restore on, and in the free history exactly
    * when it is no longer allocated. */
  ghost predicate HistoryOk(s: State, e: EntryId) {
    && (e in s.restored <==> e in s.freed || PastRestore(s, e))
    && (e < s.table.next <==> e in s.table.entries || e in s.freed)
    && (e in s.freed ==> e !in s.table.entries)
    && (e in s.wild ==> e in s.freed)
  }

  ghost predicate InvStructure(s: State) {
    && NoDup(s.table.list)
    && (forall e :: EntryOk(s, e))
    && (forall c :: CallOk(s, c))
    && (forall e, e' :: ListPairOk(s, e, e'))
    && (forall c, d :: CallPairOk(s, c, d))
  }

  ghost predicate InvLog(s: State) {
    && NoDup(s.restored) && NoDup(s.freed)
    && (forall e :: RecordOk(s, e))
    && (forall e :: HistoryOk(s, e))
  }

  ghost predicate InvPolicy(s: State) {
    PolicyExact(s) && GrantsDisjoint(s)
  }

  ghost predicate Inv(s: State) {
    InvStructure(s) && InvLog(s)
  }

  // ---------- how a step may change the held bits ----------

  lemma HeldInPolicy(s: State, h: Holder, k: AvKey)
    requires PolicyExact(s)
    ensures HeldBits(s, h, k) <= s.policy(k)
  {
    forall p | p in HeldBits(s, h, k)
      ensures p in Granted(s, k)
    {
    }
  }

  /** A new holder is granted bits the policy did not have. */
  lemma Gain(s: State, s': State, h0: Holder, g: Grant)
    requires PolicyExact(s) && GrantsDisjoint(s)
    requires forall k :: s.policy(k) !! g.Bits(k) && s'.policy(k) == s.policy(k) + g.Bits(k)
    requires s'.stuck == s.stuck && s'.base == s.base
    requires forall h, k :: HeldBits(s', h, k) == if h == h0 then g.Bits(k) else HeldBits(s, h, k)
    requires !Holds(s, h0)
    ensures PolicyExact(s') && GrantsDisjoint(s')
  {
    forall h, k
      ensures HeldBits(s, h, k) <= s.policy(k) && s.base(k) + s.stuck(k) <= s.policy(k)
    {
      HeldInPolicy(s, h, k);
    }
    forall k
      ensures s'.policy(k) == s'.base(k) + s'.stuck(k) + Granted(s', k)
    {
      forall p
        ensures p in Granted(s', k) <==> p in Granted(s, k) || p in g.Bits(k)
      {
        if p in Granted(s, k) {
          var h :| p in HeldBits(s, h, k);
          assert p in HeldBits(s', h, k);
        }
        if p in g.Bits(k) {
          assert p in HeldBits(s', h0, k);
        }
      }
    }
  }

  /** When a holder's record goes, exactly its bits are no longer outstanding. */
  lemma RecordGone(s: State, s': State, h0: Holder, k: AvKey)
    requires GrantsDisjoint(s)
    requires forall h, k :: HeldBits(s', h, k) == if h == h0 then {} else HeldBits(s, h, k)
    ensures Granted(s', k) == Granted(s, k) - HeldBits(s, h0, k)
    ensures HeldBits(s, h0, k) <= Granted(s, k)
  {
    forall p
      ensures p in Granted(s', k) <==> p in Granted(s, k) && p !in HeldBits(s, h0, k)
    {
      if p in Granted(s, k) && p !in HeldBits(s, h0, k) {
        var h :| p in HeldBits(s, h, k);
        assert p in HeldBits(s', h, k);
      }
      if p in Granted(s', k) {
        var h :| p in HeldBits(s', h, k);
        assert h != h0 && p in HeldBits(s, h, k);
      }
    }
  }

  /** A holder's bits leave the policy together with its record, or stay in it for good. */
  lemma Lose(s: State, s': State, h0: Holder, ok: bool)
    requires PolicyExact(s) && GrantsDisjoint(s) && Holds(s, h0)
    requires var r := RestoreRecord(s, GrantAt(s, h0), ok);
             s'.policy == r.policy && s'.stuck == r.stuck && s'.base == s.base
    requires forall h, k :: HeldBits(s', h, k) == if h == h0 then {} else HeldBits(s, h, k)
    ensures PolicyExact(s') && GrantsDisjoint(s')
  {
    hide Granted, HeldBits;
    forall k
      ensures s'.policy(k) == s'.base(k) + s'.stuck(k) + Granted(s', k)
      ensures s'.stuck(k) !! s.base(k)
    {
      RecordGone(s, s', h0, k);
      LoseOn(s, s', h0, ok, k);
    }
    forall h, k
      ensures HeldBits(s', h, k) !! s.base(k) + s'.stuck(k)
    {
      LoseOn(s, s', h0, ok, k);
      assert HeldBits(s, h, k) !! s.base(k) + s.stuck(k);
      assert h != h0 ==> HeldBits(s, h, k) !! HeldBits(s, h0, k);
    }
  }

  lemma LoseOn(s: State, s': State, h0: Holder, ok: bool, k: AvKey)
    requires PolicyExact(s) && GrantsDisjoint(s) && Holds(s, h0)
    requires var r := RestoreRecord(s, GrantAt(s, h0), ok);
             s'.policy == r.policy && s'.stuck == r.stuck && s'.base == s.base
    ensures s'.policy(k) == s.policy(k) - if ok then HeldBits(s, h0, k) else {}
    ensures s'.stuck(k) == s.stuck(k) + if ok then {} else HeldBits(s, h0, k)
    ensures HeldBits(s, h0, k) !! s.base(k) + s.stuck(k)
  {
    HeldInPolicy(s, h0, k);
  }

  /** A record moves from one holder to another; the policy does not change. */
  lemma Move(s: State, s': State, from: Holder, to: Holder)
    requires PolicyExact(s) && GrantsDisjoint(s)
    requires s'.policy == s.policy && s'.stuck == s.stuck && s'.base == s.base
    requires from != to && !Holds(s, to)
    requires forall h, k :: HeldBits(s', h, k) ==
                            if h == from then {} else if h == to then HeldBits(s, from, k) else HeldBits(s, h, k)
    ensures PolicyExact(s') && GrantsDisjoint(s')
  {
    forall k
      ensures Granted(s', k) == Granted(s, k)
    {
      forall p
        ensures p in Granted(s', k) <==> p in Granted(s, k)
      {
        if p in Granted(s, k) {
          var h :| p in HeldBits(s, h, k);
          assert p in HeldBits(s', if h == from then to else h, k);
        }
        if p in Granted(s', k) {
          var h :| p in HeldBits(s', h, k);
          assert p in HeldBits(s, if h == to then from else h, k);
        }
      }
    }
  }

  lemma Same(s: State, s': State)
    requires PolicyExact(s) && GrantsDisjoint(s)
    requires s'.policy == s.policy && s'.stuck == s.stuck && s'.base == s.base
    requires forall h, k :: HeldBits(s', h, k) == HeldBits(s, h, k)
    ensures PolicyExact(s') && GrantsDisjoint(s')
  {
    forall k
      ensures Granted(s', k) == Granted(s, k)
    {
    }
  }
}
