/** The loader's thread-local storage registry: module ids, per-thread blocks, and shutdown. */
module TlsRegistry {
  import opened Basics
  import opened Bits

  const MAX_TLS_MODULES := 64

  type ModId = nat
  type ThreadId = nat
  type HandleId = nat
  type BlockId = nat

  /** The TLS fields of a loaded image. */
  datatype Handle = Handle(memsz: nat, filesz: nat, align: nat, image: seq<Byte>, modId: ModId)

  datatype TlsModule = TlsModule(owner: Option<HandleId>, align: nat, memsz: nat, filesz: nat,
                                 image: seq<Byte>, unloading: bool)

  const NO_MODULE := TlsModule(None, 1, 0, 0, [], false)

  /** An allocated block: for which thread and module it was allocated, how it was aligned, and its first
    * contents. */
  datatype Block = Block(thread: ThreadId, mod: ModId, align: nat, bytes: seq<Byte>)

  /** The registry's globals. blocks lists every block ever allocated; a block id is its index. */
  datatype State = State(
    modules: seq<TlsModule>,
    nextId: ModId,
    shutdown: bool,
    threads: map<ThreadId, seq<Option<BlockId>>>,
    blocks: seq<Block>,
    handles: map<HandleId, Handle>)

  /** A region that runs under the lock or in one thread alone. */
  datatype Event =
    | Register(h: HandleId)
    | Unregister(h: HandleId)
    | EnterThread(t: ThreadId)     // get_thread_tls
    | Access(t: ThreadId, mod: ModId, offset: nat, allocOk: bool)
    | Shutdown
    | ThreadExit(t: ThreadId)

  /** is_power_of_two */
  predicate IsPowerOfTwo(v: nat) {
    v == 1 || (v > 0 && v % 2 == 0 && IsPowerOfTwo(v / 2))
  }

  lemma {:induction false} PowersOfTwo(v: nat)
    ensures IsPowerOfTwo(v) <==> exists n: nat :: v == Power(2, n)
  {
    if IsPowerOfTwo(v) && v != 1 {
      PowersOfTwo(v / 2);
      var n: nat :| v / 2 == Power(2, n);
      assert v == Power(2, n + 1);
    } else if IsPowerOfTwo(v) {
      assert v == Power(2, 0);
    }
    if n: nat :| v == Power(2, n) {
      PowerPasses(n);
    }
  }

  lemma {:induction false} PowerPasses(n: nat)
    ensures IsPowerOfTwo(Power(2, n))
  {
    if n > 0 {
      PowerPasses(n - 1);
      assert Power(2, n) / 2 == Power(2, n - 1);
    }
  }

  function Init(handles: map<HandleId, Handle>): State {
    State(seq(MAX_TLS_MODULES, i => NO_MODULE), 1, false, map[], [], handles)
  }

  function Zeros(n: nat): seq<Byte> {
    seq(n, i => 0)
  }

  /** The alignment asked for: at least that of a pointer. */
  function BlockAlign(m: TlsModule): nat {
    if m.align < 8 then 8 else m.align
  }

  /** The contents of a new block: the initialization image followed by zeros. */
  function FirstBytes(m: TlsModule): seq<Byte>
    requires m.filesz <= m.memsz && m.filesz <= |m.image|
  {
    m.image[..m.filesz] + Zeros(m.memsz - m.filesz)
  }

  // ---------- the regions on values ----------

  /** An image that has a TLS segment the registry accepts. */
  predicate Registrable(h: Handle) {
    h.filesz <= h.memsz && (h.align == 0 || IsPowerOfTwo(h.align))
  }

  predicate RegisterOk(s: State, h: HandleId) {
    h in s.handles && s.handles[h].memsz > 0 && Registrable(s.handles[h]) && !s.shutdown
    && s.nextId < MAX_TLS_MODULES
  }

  function DoRegister(s: State, h: HandleId): State
    requires |s.modules| == MAX_TLS_MODULES
  {
    if h !in s.handles || s.handles[h].memsz == 0 || s.handles[h].filesz > s.handles[h].memsz then
      s
    else
      var hd := if s.handles[h].align == 0 then s.handles[h].(align := 1) else s.handles[h];
      var s1 := s.(handles := s.handles[h := hd]);
      if !IsPowerOfTwo(hd.align) || s.shutdown then
        s1
      else if s.nextId >= MAX_TLS_MODULES then
        s1.(nextId := s.nextId + 1)
      else
        s1.(nextId := s.nextId + 1,
        modules := s.modules[s.nextId := TlsModule(Some(h), hd.align, hd.memsz, hd.filesz, hd.image, false)],
        handles := s.handles[h := hd.(modId := s.nextId)])
  }

  function DoUnregister(s: State, h: HandleId): State
    requires |s.modules| == MAX_TLS_MODULES
  {
    if h !in s.handles || s.handles[h].modId == 0 then
      s
    else
      var id := s.handles[h].modId;
      var s1 := s.(handles := s.handles[h := s.handles[h].(modId := 0)]);
      if id < MAX_TLS_MODULES && s.modules[id].owner == Some(h) then
        s1.(modules := s.modules[id := s.modules[id].(unloading := true, owner := None)])
      else
        s1
  }

  function DoEnterThread(s: State, t: ThreadId): State {
    if s.shutdown || t in s.threads then s
    else s.(threads := s.threads[t := seq(MAX_TLS_MODULES, i => None)])
  }

  predicate Resolvable(s: State, mod: ModId) {
    && 0 < mod < MAX_TLS_MODULES && mod < |s.modules|
    && s.modules[mod].owner.Some? && !s.modules[mod].unloading
  }

  predicate WfThread(s: State, t: ThreadId) {
    t in s.threads ==> |s.threads[t]| == MAX_TLS_MODULES
  }

  predicate WfModule(m: TlsModule) {
    m.filesz <= m.memsz && m.filesz <= |m.image|
  }

  /** custom_tls_get_addr from its lock on: the block that the address lies in. */
  function DoAccess(s: State, t: ThreadId, mod: ModId, offset: nat, allocOk: bool): (State, Option<BlockId>)
    requires |s.modules| == MAX_TLS_MODULES && WfThread(s, t)
    requires mod < MAX_TLS_MODULES ==> WfModule(s.modules[mod])
  {
    if t !in s.threads || !Resolvable(s, mod) || offset >= s.modules[mod].memsz then
      (s, None)
    else if s.threads[t][mod].Some? then
      (s, s.threads[t][mod])
    else if !allocOk then
      (s, None)
    else
      var b := |s.blocks|;
      (s.(blocks := s.blocks + [Block(t, mod, BlockAlign(s.modules[mod]), FirstBytes(s.modules[mod]))],
       threads := s.threads[t := s.threads[t][mod := Some(b)]]), Some(b))
  }

  function Closed(m: TlsModule): TlsModule {
    m.(unloading := true, owner := None)
  }

  function DoShutdown(s: State): State
    requires |s.modules| == MAX_TLS_MODULES
  {
    s.(shutdown := true,
    modules := seq(MAX_TLS_MODULES, i requires 0 <= i < MAX_TLS_MODULES =>
      if i == 0 then s.modules[0] else Closed(s.modules[i])))
  }

  function DoThreadExit(s: State, t: ThreadId): State {
    s.(threads := s.threads - {t})
  }

  // ---------- runs ----------

  /** What every reachable state satisfies. */
  ghost predicate Inv(s: State) {
    && |s.modules| == MAX_TLS_MODULES && s.nextId >= 1
    && (forall i :: 0 <= i < MAX_TLS_MODULES ==> WfModule(s.modules[i]))
    && (forall i :: 0 <= i < MAX_TLS_MODULES ==> s.modules[i].owner.Some? ==> 0 < i < s.nextId && !s.shutdown)
    && (forall h :: h in s.handles ==> s.handles[h].filesz <= |s.handles[h].image| && s.handles[h].modId < s.nextId)
    && (forall t :: t in s.threads ==> WfThread(s, t))
    && (forall t, m :: t in s.threads && 0 <= m < |s.threads[t]| && s.threads[t][m].Some? ==> BlockOk(s, t, m))
  }

  /** A thread's slot refers to the block that was allocated for this thread and module. */
  ghost predicate BlockOk(s: State, t: ThreadId, m: ModId)
    requires t in s.threads && m < |s.threads[t]| && s.threads[t][m].Some?
  {
    var b := s.threads[t][m].value;
    && m < |s.modules| && WfModule(s.modules[m]) && m < s.nextId
    && b < |s.blocks| && s.blocks[b] == Block(t, m, BlockAlign(s.modules[m]), FirstBytes(s.modules[m]))
  }

  ghost function Step(s: State, ev: Event): State
    requires Inv(s)
  {
    match ev
    case Register(h) => DoRegister(s, h)
    case Unregister(h) => DoUnregister(s, h)
    case EnterThread(t) => DoEnterThread(s, t)
    case Access(t, mod, offset, allocOk) => DoAccess(s, t, mod, offset, allocOk).0
    case Shutdown => DoShutdown(s)
    case ThreadExit(t) => DoThreadExit(s, t)
  }

  /** The part of the invariant about modules, handles and the shape of the tables. */
  lemma StepInvTables(s: State, ev: Event)
    requires Inv(s)
    ensures var s' := Step(s, ev);
            && |s'.modules| == MAX_TLS_MODULES && s'.nextId >= s.nextId
            && (forall i :: 0 <= i < MAX_TLS_MODULES ==> WfModule(s'.modules[i]))
            && (forall i :: 0 <= i < MAX_TLS_MODULES ==>
                              s'.modules[i].owner.Some? ==> 0 < i < s'.nextId && !s'.shutdown)
            && (forall h :: h in s'.handles ==>
                              s'.handles[h].filesz <= |s'.handles[h].image| && s'.handles[h].modId < s'.nextId)
            && (forall t :: t in s'.threads ==> WfThread(s', t))
  {
    hide BlockOk;
    match ev
    case Register(_) =>
    case Access(_, _, _, _) =>
    case _ =>
  }

  /** The part about the threads' blocks. */
  lemma StepInvBlocks(s: State, ev: Event)
    requires Inv(s)
    ensures var s' := Step(s, ev);
            forall t, m :: t in s'.threads && 0 <= m < |s'.threads[t]| && s'.threads[t][m].Some? ==> BlockOk(s', t, m)
  {
    var s' := Step(s, ev);
    forall t, m | t in s'.threads && 0 <= m < |s'.threads[t]| && s'.threads[t][m].Some?
      ensures BlockOk(s', t, m)
    {
      if t in s.threads && m < |s.threads[t]| && s.threads[t][m].Some? {
        assert BlockOk(s, t, m);
      }
    }
  }

  lemma StepInv(s: State, ev: Event)
    requires Inv(s)
    ensures Inv(Step(s, ev))
  {
    StepInvTables(s, ev);
    StepInvBlocks(s, ev);
  }

  ghost function After(s: State, evs: seq<Event>): State
    requires Inv(s)
    decreases |evs|
  {
    if evs == [] then s
    else
      StepInv(s, evs[0]);
      After(Step(s, evs[0]), evs[1..])
  }

  /** Images before the first event: none has a module id, and each contains its initialization image. */
  ghost predicate WfHandles(handles: map<HandleId, Handle>) {
    forall h :: h in handles ==> handles[h].modId == 0 && handles[h].filesz <= |handles[h].image|
  }

  lemma InitInv(handles: map<HandleId, Handle>)
    requires WfHandles(handles)
    ensures Inv(Init(handles))
  {
  }

  lemma {:induction false} AfterInv(s: State, evs: seq<Event>)
    requires Inv(s)
    ensures Inv(After(s, evs))
    decreases |evs|
  {
    hide Inv;
    if evs != [] {
      StepInv(s, evs[0]);
      AfterInv(Step(s, evs[0]), evs[1..]);
    }
  }

  // ---------- what only grows ----------

  /** How any later state relates to an earlier one: ids and blocks are only added, an id once given out
    * that no longer resolves never resolves again, and shutdown is final. */
  ghost predicate Later(s: State, s': State) {
    && s.nextId <= s'.nextId
    && s.blocks <= s'.blocks
    && (s.shutdown ==> s'.shutdown)
    && (forall id: ModId :: id < s.nextId && !Resolvable(s, id) ==> !Resolvable(s', id))
  }

  /** A thread that has not exited keeps every block it has. */
  ghost predicate KeepsBlocks(s: State, s': State, t: ThreadId) {
    t in s.threads ==>
      && t in s'.threads && |s'.threads[t]| == |s.threads[t]|
      && forall m :: 0 <= m < |s.threads[t]| && s.threads[t][m].Some? ==> s'.threads[t][m] == s.threads[t][m]
  }

  lemma StepLater(s: State, ev: Event)
    requires Inv(s)
    ensures Later(s, Step(s, ev))
    ensures forall t :: ev != ThreadExit(t) ==> KeepsBlocks(s, Step(s, ev), t)
  {
    var s' := Step(s, ev);
    forall id: ModId | id < s.nextId && !Resolvable(s, id)
      ensures !Resolvable(s', id)
    {
    }
  }

  lemma {:induction false} AfterLater(s: State, evs: seq<Event>)
    requires Inv(s)
    ensures Later(s, After(s, evs))
    decreases |evs|
  {
    hide Inv, Step;
    if evs != [] {
      StepInv(s, evs[0]);
      StepLater(s, evs[0]);
      AfterLater(Step(s, evs[0]), evs[1..]);
    }
  }

  lemma {:induction false} AfterKeepsBlocks(s: State, evs: seq<Event>, t: ThreadId)
    requires Inv(s) && ThreadExit(t) !in evs
    ensures KeepsBlocks(s, After(s, evs), t)
    decreases |evs|
  {
    hide Inv, Step;
    if evs != [] {
      StepInv(s, evs[0]);
      StepLater(s, evs[0]);
      assert evs[0] != ThreadExit(t);
      AfterKeepsBlocks(Step(s, evs[0]), evs[1..], t);
    }
  }

  // ---------- promises over whole runs ----------

  /** Module ids are never reused: a later registration always gets a larger id. */
  lemma IdsNeverReused(s: State, h: HandleId, evs: seq<Event>, h': HandleId)
    requires Inv(s) && RegisterOk(s, h)
    requires Inv(Step(s, Register(h))) && RegisterOk(After(Step(s, Register(h)), evs), h')
    ensures var s1 := Step(s, Register(h));
            var s2 := After(s1, evs);
            && Inv(s2)
            && s1.handles[h].modId == s.nextId && s1.modules[s.nextId].owner == Some(h)
            && Step(s2, Register(h')).handles[h'].modId > s1.handles[h].modId
  {
    var s1 := Step(s, Register(h));
    AfterInv(s1, evs);
    AfterLater(s1, evs);
  }

  /** An id whose image was unregistered, and after shutdown every id, never resolves again. */
  lemma DeadForever(s: State, id: ModId, dying: Event, evs: seq<Event>, t: ThreadId, offset: nat, allocOk: bool)
    requires Inv(s) && Inv(Step(s, dying))
    requires || dying == Shutdown
             || (exists h :: dying == Unregister(h) && h in s.handles && s.handles[h].modId == id != 0
                             && id < MAX_TLS_MODULES && s.modules[id].owner == Some(h))
    ensures var s' := After(Step(s, dying), evs);
            Inv(s') && DoAccess(s', t, id, offset, allocOk) == (s', None)
  {
    var s1 := Step(s, dying);
    AfterInv(s1, evs);
    AfterLater(s1, evs);
    if dying.Unregister? {
      assert !Resolvable(s1, id) && id < s1.nextId;
    }
  }

  /** Two accesses by one thread to one module, with the thread alive in between, that both resolve give
    * the same block. */
  lemma SameBlock(s: State, t: ThreadId, m: ModId, off1: nat, ok1: bool, evs: seq<Event>, off2: nat, ok2: bool)
    requires Inv(s) && Inv(Step(s, Access(t, m, off1, ok1))) && ThreadExit(t) !in evs
    requires DoAccess(s, t, m, off1, ok1).1.Some?
    ensures var s2 := After(Step(s, Access(t, m, off1, ok1)), evs);
            && Inv(s2)
            && (DoAccess(s2, t, m, off2, ok2).1.Some? ==>
                  DoAccess(s2, t, m, off2, ok2) == (s2, DoAccess(s, t, m, off1, ok1).1))
            && (Resolvable(s2, m) && off2 < s2.modules[m].memsz ==> DoAccess(s2, t, m, off2, ok2).1.Some?)
  {
    var s1 := Step(s, Access(t, m, off1, ok1));
    AfterInv(s1, evs);
    AfterKeepsBlocks(s1, evs, t);
  }

  /** A resolved address lies inside a block of the module's size that was first filled with the
    * initialization image and then zeros. */
  lemma BlockContents(s: State, t: ThreadId, m: ModId, offset: nat, ok: bool)
    requires Inv(s) && DoAccess(s, t, m, offset, ok).1.Some?
    ensures var (s', b) := DoAccess(s, t, m, offset, ok);
            && b.value < |s'.blocks| && s'.blocks[b.value].thread == t && s'.blocks[b.value].mod == m
            && offset < |s'.blocks[b.value].bytes| == s.modules[m].memsz
            && s'.blocks[b.value].align == (if s.modules[m].align < 8 then 8 else s.modules[m].align)
            && (forall i :: 0 <= i < s.modules[m].memsz ==>
                  s'.blocks[b.value].bytes[i] == if i < s.modules[m].filesz then s.modules[m].image[i] else 0)
  {
    if s.threads[t][m].Some? {
      assert BlockOk(s, t, m);
    }
  }

  /** Accesses by different threads or to different modules, at any two times, never share a block. */
  lemma DistinctBlocks(s: State, t: ThreadId, m: ModId, off1: nat, ok1: bool, evs: seq<Event>,
                       t': ThreadId, m': ModId, off2: nat, ok2: bool)
    requires Inv(s) && Inv(Step(s, Access(t, m, off1, ok1))) && (t, m) != (t', m')
    requires DoAccess(s, t, m, off1, ok1).1.Some?
    ensures var s2 := After(Step(s, Access(t, m, off1, ok1)), evs);
            Inv(s2) && DoAccess(s2, t', m', off2, ok2).1 != DoAccess(s, t, m, off1, ok1).1
  {
    var s1 := Step(s, Access(t, m, off1, ok1));
    AfterInv(s1, evs);
    AfterLater(s1, evs);
    var s2 := After(s1, evs);
    BlockContents(s, t, m, off1, ok1);
    if DoAccess(s2, t', m', off2, ok2).1.Some? {
      BlockContents(s2, t', m', off2, ok2);
    }
  }

  // ---------- what a step changes ----------

  /** A registration that passes the checks before the lock, and finds the registry open, uses up an id. */
  predicate TakesId(s: State, ev: Event) {
    ev.Register? && ev.h in s.handles && s.handles[ev.h].memsz > 0 && Registrable(s.handles[ev.h]) && !s.shutdown
  }

  /** The step gives id to an image. */
  predicate Registers(s: State, ev: Event, id: ModId) {
    TakesId(s, ev) && id == s.nextId < MAX_TLS_MODULES
  }

  /** The step takes id from its image. */
  predicate Closes(s: State, ev: Event, id: ModId) {
    || (ev.Shutdown? && 0 < id)
    || (ev.Unregister? && ev.h in s.handles && s.handles[ev.h].modId == id != 0
        && id < |s.modules| && s.modules[id].owner == Some(ev.h))
  }

  /** Exactly a registration gives an id an owner and the data of the owner's image; exactly a shutdown or the
    * unregistration of its owner takes the owner away, for good; nothing else touches a module. */
  lemma ModuleLaw(s: State, ev: Event, id: ModId)
    requires Inv(s) && id < MAX_TLS_MODULES
    ensures var s' := Step(s, ev);
            && |s'.modules| == MAX_TLS_MODULES && s'.nextId == s.nextId + (if TakesId(s, ev) then 1 else 0)
            && (s'.shutdown <==> s.shutdown || ev.Shutdown?)
            && var m, m' := s.modules[id], s'.modules[id];
            if Registers(s, ev, id) then
              var h := s.handles[ev.h];
              && m'.owner == Some(ev.h) && !m'.unloading && m'.memsz == h.memsz && m'.filesz == h.filesz
              && m'.image == h.image && m'.align == (if h.align == 0 then 1 else h.align)
              && s'.handles[ev.h].modId == id
            else
              && m'.owner == (if Closes(s, ev, id) then None else m.owner)
              && m'.unloading == (m.unloading || Closes(s, ev, id))
              && m'.memsz == m.memsz && m'.filesz == m.filesz && m'.image == m.image && m'.align == m.align
  {
    hide BlockOk;
  }

  /** The data of an image never changes, only its id does. */
  lemma HandleLaw(s: State, ev: Event, h: HandleId)
    requires Inv(s)
    ensures h in Step(s, ev).handles <==> h in s.handles
    ensures h in s.handles ==>
              var x, x' := s.handles[h], Step(s, ev).handles[h];
              && x'.memsz == x.memsz && x'.filesz == x.filesz && x'.image == x.image
              && (x'.align == x.align || (x.align == 0 && x'.align == 1))
              && x'.modId == (if ev == Register(h) && Registers(s, ev, s.nextId) then s.nextId
                              else if ev == Unregister(h) then 0 else x.modId)
  {
    hide BlockOk;
  }

  /** A thread has a table from its first access until it ends, unless the registry was shut down before; and a slot is
    * filled exactly by an access of its thread to its module, in range, for which a block can be allocated. */
  lemma ThreadLaw(s: State, ev: Event, t: ThreadId, m: ModId)
    requires Inv(s) && m < MAX_TLS_MODULES
    ensures var s' := Step(s, ev);
            && (t in s'.threads <==> (t in s.threads && ev != ThreadExit(t)) || (ev == EnterThread(t) && !s.shutdown))
            && (t in s'.threads ==>
                  && |s'.threads[t]| == MAX_TLS_MODULES
                  && s'.threads[t][m] ==
                     if t !in s.threads then None
                     else if s.threads[t][m].Some? then s.threads[t][m]
                     else if ev.Access? && ev.t == t && ev.mod == m != 0 && s.modules[m].owner.Some?
                             && !s.modules[m].unloading && ev.offset < s.modules[m].memsz && ev.allocOk
                     then Some(|s.blocks|)
                     else None)
  {
    hide BlockOk;
    assert t in s.threads ==> WfThread(s, t);
  }

  // ---------- from the registration to the block ----------

  /** No step of the run takes id from its image. */
  ghost predicate NeverClosed(s: State, evs: seq<Event>, id: ModId)
    requires Inv(s)
    decreases |evs|
  {
    evs == [] ||
    (StepInv(s, evs[0]);
     !Closes(s, evs[0], id) && NeverClosed(Step(s, evs[0]), evs[1..], id))
  }

  /** An id stands for the image h with those sizes, and resolves or not. */
  ghost predicate StandsFor(s: State, id: ModId, image: Handle, open: bool)
    requires Inv(s)
  {
    && 0 < id < MAX_TLS_MODULES && id < s.nextId
    && s.modules[id].memsz == image.memsz && s.modules[id].filesz == image.filesz
    && s.modules[id].image == image.image && s.modules[id].align == (if image.align == 0 then 1 else image.align)
    && (Resolvable(s, id) <==> open) && (s.modules[id].owner.Some? ==> !s.modules[id].unloading)
  }

  lemma {:induction false} KeepsStanding(s: State, evs: seq<Event>, id: ModId, image: Handle, open: bool)
    requires Inv(s) && StandsFor(s, id, image, open)
    ensures Inv(After(s, evs)) && StandsFor(After(s, evs), id, image, open && NeverClosed(s, evs, id))
    decreases |evs|
  {
    AfterInv(s, evs);
    if evs != [] {
      StepInv(s, evs[0]);
      ModuleLaw(s, evs[0], id);
      hide Inv, Step, Closes;
      KeepsStanding(Step(s, evs[0]), evs[1..], id, image, open && !Closes(s, evs[0], id));
    }
  }

  /** An access, at any time after the registration of an image, by a thread that has a table, resolves exactly when the
    * id was not taken from the image in between, the offset lies in the image's segment, and the thread has a block
    * already or one can be allocated; and then the block holds the image's first bytes and zeros behind, and is
    * aligned as the image asks. */
  lemma RegisteredContents(s: State, h: HandleId, evs: seq<Event>, t: ThreadId, offset: nat, ok: bool)
    requires Inv(s) && RegisterOk(s, h) && Inv(Step(s, Register(h)))
    requires t in After(Step(s, Register(h)), evs).threads
    ensures var s1 := Step(s, Register(h));
            var s2 := After(s1, evs);
            && Inv(s2) && s1.handles[h].modId == s.nextId < |s2.threads[t]|
            && var (s3, b) := DoAccess(s2, t, s.nextId, offset, ok);
            && (b.Some? <==> NeverClosed(s1, evs, s.nextId) && offset < s.handles[h].memsz
                             && (s2.threads[t][s.nextId].Some? || ok))
            && (b.Some? ==>
                  && b.value < |s3.blocks| && s3.blocks[b.value].thread == t
                  && |s3.blocks[b.value].bytes| == s.handles[h].memsz
                  && (forall i :: 0 <= i < s.handles[h].memsz ==>
                        s3.blocks[b.value].bytes[i] == if i < s.handles[h].filesz then s.handles[h].image[i] else 0)
                  && s3.blocks[b.value].align >= 8 && s3.blocks[b.value].align >= s.handles[h].align
                  && (s.handles[h].align >= 8 ==> s3.blocks[b.value].align == s.handles[h].align))
  {
    var s1, id := Step(s, Register(h)), s.nextId;
    ModuleLaw(s, Register(h), id);
    KeepsStanding(s1, evs, id, s.handles[h], true);
    var s2 := After(s1, evs);
    assert WfThread(s2, t);
    hide Step, After, NeverClosed, FirstBytes, BlockOk, Registrable;
    if DoAccess(s2, t, id, offset, ok).1.Some? {
      BlockContents(s2, t, id, offset, ok);
    }
  }

  // ---------- the code ----------

  /** The registry's globals and the functions that update them. */
  class Registry {
    var modules: array<TlsModule>
    var nextTlsModId: ModId
    var tlsShutdown: bool
    var threads: map<ThreadId, seq<Option<BlockId>>>
    var blocks: seq<Block>
    var handles: map<HandleId, Handle>

    constructor (handles: map<HandleId, Handle>)
      requires WfHandles(handles)
      ensures Abs() == Init(handles) && fresh(modules)
    {
      modules := new TlsModule[MAX_TLS_MODULES](i => NO_MODULE);
      nextTlsModId, tlsShutdown := 1, false;
      threads, blocks := map[], [];
      this.handles := handles;
    }

    ghost function Abs(): State
      reads this, modules
    {
      State(modules[..], nextTlsModId, tlsShutdown, threads, blocks, handles)
    }

    /** register_tls_module */
    method RegisterTlsModule(h: HandleId) returns (ok: bool)
      requires Inv(Abs()) && h in handles
      modifies `nextTlsModId, `handles, modules
      ensures Abs() == Step(old(Abs()), Register(h))
      ensures ok <==> old(handles[h]).memsz == 0 || old(RegisterOk(Abs(), h))
    {
      if handles[h].memsz == 0 {
        return true;
      }
      if handles[h].filesz > handles[h].memsz {
        return false;
      }
      if handles[h].align == 0 {
        handles := handles[h := handles[h].(align := 1)];
      } else {
        assert handles[h := handles[h]] == handles;
      }
      if !IsPowerOfTwo(handles[h].align) {
        return false;
      }
      if tlsShutdown {
        return false;
      }
      var modId := nextTlsModId;
      nextTlsModId := nextTlsModId + 1;
      if modId >= MAX_TLS_MODULES {
        return false;
      }
      var hd := handles[h];
      modules[modId] := TlsModule(Some(h), hd.align, hd.memsz, hd.filesz, hd.image, false);
      handles := handles[h := hd.(modId := modId)];
      return true;
    }

    /** unregister_tls_module */
    method UnregisterTlsModule(h: HandleId)
      requires Inv(Abs()) && h in handles
      modifies `handles, modules
      ensures Abs() == Step(old(Abs()), Unregister(h))
    {
      if handles[h].modId == 0 {
        return;
      }
      var modId := handles[h].modId;
      if modId < MAX_TLS_MODULES && modules[modId].owner == Some(h) {
        modules[modId] := modules[modId].(unloading := true, owner := None);
      }
      handles := handles[h := handles[h].(modId := 0)];
    }

    /** get_thread_tls; false when there is no thread state. */
    method GetThreadTls(t: ThreadId) returns (ok: bool)
      requires Inv(Abs())
      modifies `threads
      ensures Abs() == Step(old(Abs()), EnterThread(t))
      ensures ok <==> !tlsShutdown
      ensures ok ==> t in threads && (t !in old(threads) ==> forall m :: 0 <= m < |threads[t]| ==> threads[t][m].None?)
    {
      if tlsShutdown {
        return false;
      }
      if t !in threads {
        threads := threads[t := seq(MAX_TLS_MODULES, i => None)];
      }
      return true;
    }

    /** custom_tls_get_addr from its lock on. */
    method TlsGetAddrLocked(t: ThreadId, modId: ModId, offset: nat, allocOk: bool) returns (block: Option<BlockId>)
      requires Inv(Abs()) && t in threads
      modifies `threads, `blocks
      ensures Abs() == Step(old(Abs()), Access(t, modId, offset, allocOk))
      ensures block == DoAccess(old(Abs()), t, modId, offset, allocOk).1
    {
      assert WfThread(Abs(), t);
      if modId == 0 || modId >= MAX_TLS_MODULES {
        return None;
      }
      var m := modules[modId];
      assert WfModule(Abs().modules[modId]);
      if m.owner.None? || m.unloading {
        return None;
      }
      if offset >= m.memsz {
        return None;
      }
      if threads[t][modId].None? {
        if !allocOk {
          return None;
        }
        var bytes := Zeros(m.memsz);
        if m.filesz != 0 {
          bytes := m.image[..m.filesz] + bytes[m.filesz..];
        }
        assert bytes == FirstBytes(m);
        var align := m.align;
        if align < 8 {
          align := 8;
        }
        var b := |blocks|;
        blocks := blocks + [Block(t, modId, align, bytes)];
        threads := threads[t := threads[t][modId := Some(b)]];
      }
      return threads[t][modId];
    }

    /** shutdown, its lock region. */
    method ShutdownLocked()
      requires Inv(Abs())
      modifies `tlsShutdown, modules
      ensures Abs() == Step(old(Abs()), Shutdown)
    {
      tlsShutdown := true;
      for i := 1 to MAX_TLS_MODULES
        invariant tlsShutdown && modules[0] == old(modules[0])
        invariant forall j :: 1 <= j < i ==> modules[j] == Closed(old(modules[j]))
        invariant forall j :: i <= j < MAX_TLS_MODULES ==> modules[j] == old(modules[j])
      {
        modules[i] := modules[i].(unloading := true, owner := None);
      }
      assert modules[..] == DoShutdown(old(Abs())).modules;
    }

    /** destroy_thread_tls: frees the thread's blocks with its state. */
    method DestroyThreadTls(t: ThreadId)
      requires Inv(Abs())
      modifies `threads
      ensures Abs() == Step(old(Abs()), ThreadExit(t))
    {
      threads := threads - {t};
    }
  }
}
