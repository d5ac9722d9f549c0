/** Replacing entries of the kernel's LSM hook lists and putting them back (kernels before 6.12, hooks
  * without an offset). */
module LsmHook {
  import opened Basics
  import opened SwapTable

  const TABLE_SIZE := 16

  /** A function address; 0 is NULL. */
  type Fn = nat

  /** struct tamisu_lsm_hook; entry is the index of the slot the hook is installed in. */
  class Hook {
    const named: bool          // target_name is set
    const replacement: Fn
    var original: Fn
    var entry: Option<nat>

    constructor (named: bool, replacement: Fn)
      ensures this.named == named && this.replacement == replacement
      ensures original == 0 && entry == None
    {
      this.named, this.replacement := named, replacement;
      original, entry := 0, None;
    }
  }

  /** The lowest index at which s holds v. */
  ghost predicate FirstAt(s: seq<Fn>, v: Fn, k: nat) {
    k < |s| && s[k] == v && v !in s[..k]
  }

  datatype Request =
    | DoHook(hook: Hook, symbol: Fn, patchOk: bool)
    | DoUnhook(hook: Hook, patchOk: bool)

  class LsmHooks {
    ghost const pristine: seq<Fn>    // what the slots held before any hook
    ghost const known: set<Hook>     // the hooks callers may pass
    const slots: array<Fn>           // every slot, in the order the lists are walked
    const entries: array<Hook?>      // tamisu_lsm_hook_entries
    var count: nat                   // tamisu_lsm_hook_count

    constructor (slots: array<Fn>, ghost known: set<Hook>)
      requires ReplacementsOk(slots[..], known)
      requires forall h: Hook :: h in known ==> h.entry == None
      ensures Valid() && this.slots == slots && this.known == known && pristine == slots[..]
      ensures fresh(entries) && count == 0
    {
      this.slots, this.known := slots, known;
      pristine := slots[..];
      entries := new Hook?[TABLE_SIZE](_ => null);
      count := 0;
    }

    /** A hook that is installed somewhere remembers what its slot held before any hook. */
    ghost predicate HookOk(h: Hook)
      reads h
    {
      h.entry.Some? ==>
        h.replacement != 0 && h.entry.value < |pristine| && h.original == pristine[h.entry.value]
    }

    /** A slot holds its pristine function or the replacement of a hook installed in it. */
    ghost predicate SlotOk(k: nat)
      requires k < slots.Length == |pristine|
      reads slots, known
    {
      slots[k] == pristine[k] ||
      exists h: Hook :: h in known && h.entry == Some(k) && h.replacement == slots[k]
    }

    ghost function Table(): seq<Hook?>
      requires count <= entries.Length
      reads `count, entries
    {
      entries[..count]
    }

    /** The table lists hooks, each once. */
    ghost predicate TableWf()
      reads `count, entries
    {
      && entries.Length == TABLE_SIZE && count <= TABLE_SIZE
      && Distinct(Table())
      && forall h: Hook? :: h in Table() ==> h != null && h in known
    }

    /** Exactly the installed hooks are listed. */
    ghost predicate ListedOk(h: Hook)
      requires TableWf()
      reads `count, entries, h
    {
      h in Table() <==> h.entry.Some?
    }

    ghost predicate TableOk()
      reads `count, entries, known
    {
      TableWf() && forall h: Hook :: h in known ==> ListedOk(h)
    }

    ghost predicate SlotsOk()
      reads slots, known
    {
      && slots.Length == |pristine|
      && (forall h: Hook :: h in known ==> HookOk(h))
      && (forall k: nat :: k < slots.Length ==> SlotOk(k))
    }

    ghost predicate Valid()
      reads this, slots, entries, known
    {
      ReplacementsOk(pristine, known) && TableOk() && SlotsOk()
    }

    /** tamisu_lsm_hook_track */
    method Track(h: Hook) returns (ret: int)
      requires entries.Length == TABLE_SIZE && count <= TABLE_SIZE
      modifies `count, entries
      ensures ret == (if h in old(Table()) || old(count) < TABLE_SIZE then 0 else -ENOSPC)
      ensures count <= TABLE_SIZE
      ensures Table() == old(Table()) + (if ret == 0 && h !in old(Table()) then [h] else [])
    {
      for i := 0 to count
        invariant h !in Table()[..i]
      {
        if entries[i] == h {
          return 0;
        }
      }
      assert Table()[..count] == Table();
      if count >= TABLE_SIZE {
        return -ENOSPC;
      }
      entries[count] := h;
      count := count + 1;
      ret := 0;
    }

    /** tamisu_lsm_hook_untrack: the last entry moves into the gap. */
    method Untrack(h: Hook) returns (ghost at: nat)
      requires entries.Length == TABLE_SIZE && count <= TABLE_SIZE && h in Table()
      modifies `count, entries
      ensures at < old(count) && old(Table()[at]) == h
      ensures count == old(count) - 1 && Table() == SwapRemoved(old(Table()), at)
    {
      for i := 0 to count
        invariant count == old(count) && Table() == old(Table())
        invariant forall j :: 0 <= j < i ==> entries[j] != h
      {
        if entries[i] == h {
          at := i;
          count := count - 1;
          entries[i] := entries[count];
          return;
        }
      }
      assert false;
    }

    /** The inner loop of the scan: what a slot's value stands for. */
    method Underlying(value: Fn, ghost k: nat) returns (origin: Fn)
      requires Valid() && k < slots.Length && value == slots[k]
      ensures origin == pristine[k]
    {
      for j := 0 to count
        invariant forall g: Hook :: g in Table()[..j] ==> g.replacement != value
      {
        assert entries[j] == Table()[j] && Table()[j] in Table();
        if entries[j].replacement == value {
          assert HookOk(entries[j]) && SlotOk(k);
          return entries[j].original;
        }
      }
      assert SlotOk(k) && Table()[..count] == Table();
      return value;
    }

    /** The scan for the slot to patch, up to the first match; already is set when a slot turns out to stand
      * for the hook's own replacement. */
    method FindSlot(h: Hook, target: Fn) returns (k: Option<nat>, already: bool)
      requires Valid() && h in known && h.replacement != 0
      ensures !already
      ensures match k case Some(i) => FirstAt(pristine, target, i) case None => target !in pristine
    {
      already := false;
      for i := 0 to slots.Length
        invariant target !in pristine[..i]
      {
        var origin := Underlying(slots[i], i);
        assert origin in pristine;
        if origin == h.replacement {
          return None, true;
        }
        if origin == target {
          return Some(i), false;
        }
      }
      assert pristine == pristine[..slots.Length];
      return None, false;
    }

    /** The checks at the start of tamisu_lsm_hook and the choice of the slot. */
    method Choose(h: Hook, symbol: Fn) returns (ret: int, at: nat)
      requires Valid() && h in known
      ensures ret == ChooseResult(h.replacement, h.entry, h.named, Target(h.original, symbol), pristine)
      ensures ret == 0 ==> FirstAt(pristine, Target(h.original, symbol), at)
    {
      at := 0;
      if h.replacement == 0 {
        return -EINVAL, at;
      }
      if h.entry.Some? {
        return -EALREADY, at;
      }
      if !h.named {
        return -EINVAL, at;
      }
      var target := Target(h.original, symbol);
      if target == 0 {
        return -ENOENT, at;
      }
      var k, already := FindSlot(h, target);
      if already {
        return -EALREADY, at;
      }
      if k.None? {
        return -ENOENT, at;
      }
      return 0, k.value;
    }

    /** tamisu_lsm_hook. symbol is what looking up the target's name gives, patchOk whether writing the slot
      * succeeds. */
    method Install(h: Hook, symbol: Fn, patchOk: bool) returns (ret: int)
      requires Valid() && h in known
      modifies slots, `count, entries, h
      ensures Valid()
      ensures ret == InstallResult(h.replacement, old(h.entry), h.named, Target(old(h.original), symbol),
                                   pristine, old(count), patchOk)
      ensures ret == 0 ==>
        && h.original == Target(old(h.original), symbol)
        && h.original == (if old(h.original) != 0 then old(h.original) else symbol)
        && h.entry.Some? && FirstAt(pristine, h.original, h.entry.value)
        && slots[..] == old(slots[..])[h.entry.value := h.replacement]
        && Table() == old(Table()) + [h]
      ensures ret != 0 ==>
        && h.entry == old(h.entry) && h.original == old(h.original)
        && slots[..] == old(slots[..]) && Table() == old(Table())
    {
      var k;
      ret, k := Choose(h, symbol);
      if ret != 0 {
        return;
      }
      ret := Patch(h, k, Target(h.original, symbol), patchOk);
    }

    /** The rest of it: track the hook before its slot is written, and forget it again if that fails. */
    method Patch(h: Hook, k: nat, target: Fn, patchOk: bool) returns (ret: int)
      requires Valid() && h in known && h.replacement != 0 && h.entry == None && FirstAt(pristine, target, k)
      modifies slots, `count, entries, h
      ensures Valid()
      ensures ret == if old(count) >= TABLE_SIZE then -ENOSPC else if !patchOk then -EFAULT else 0
      ensures ret == 0 ==>
        && h.original == target && h.entry == Some(k)
        && slots[..] == old(slots[..])[k := h.replacement] && Table() == old(Table()) + [h]
      ensures ret != 0 ==>
        && h.entry == old(h.entry) && h.original == old(h.original)
        && slots[..] == old(slots[..]) && Table() == old(Table())
    {
      ret := Track(h);
      if ret != 0 {
        return;
      }
      if patchOk {
        Commit(h, k, target);
        assert forall g: Hook :: g in known && g != h ==> (g in Table() <==> g in old(Table()));
      } else {
        ghost var gap := Untrack(h);
        assert gap == old(count) && Table() == old(Table());
        ret := -EFAULT;
      }
    }

    /** The slot's pristine function is recorded, and the replacement written. */
    method Commit(h: Hook, k: nat, target: Fn)
      requires SlotsOk() && h in known && k < slots.Length
      requires h.entry == None && h.replacement != 0 && target == pristine[k]
      modifies slots, h
      ensures SlotsOk() && slots[..] == old(slots[..])[k := h.replacement]
      ensures h.entry == Some(k) && h.original == target
    {
      h.original := target;
      forall g: Hook | g in known && g != h
        ensures HookOk(g)
      {
        assert old(HookOk(g));
      }
      forall j: nat | j < slots.Length
        ensures SlotOk(j)
      {
        assert old(SlotOk(j));
      }
      Write(h, k, h.replacement, Some(k));
    }

    /** Writing a slot and recording it in the hook, which was in no other slot: no other slot and no other hook
      * is disturbed. */
    method Write(h: Hook, k: nat, value: Fn, entry: Option<nat>)
      requires slots.Length == |pristine| && h in known && k < slots.Length
      requires forall g: Hook :: g in known && g != h ==> HookOk(g)
      requires forall j: nat :: j < slots.Length ==> SlotOk(j)
      requires h.entry in {None, Some(k)} && h.replacement != 0 && h.original == pristine[k]
      requires (value == h.replacement && entry == Some(k)) || (value == pristine[k] && entry == None)
      modifies slots, h`entry
      ensures slots[..] == old(slots[..])[k := value] && h.entry == entry
      ensures SlotsOk()
    {
      slots[k] := value;
      h.entry := entry;
      forall g: Hook | g in known
        ensures HookOk(g)
      {
        if g != h {
          assert old(HookOk(g));
        }
      }
      forall j: nat | j < slots.Length
        ensures SlotOk(j)
      {
        if j != k {
          assert old(SlotOk(j));
        }
      }
    }

    /** tamisu_lsm_unhook */
    method Unhook(h: Hook, patchOk: bool)
      requires Valid() && h in known
      modifies slots, `count, entries, h
      ensures Valid() && h.original == old(h.original)
      ensures h.entry == if patchOk then None else old(h.entry)
      ensures slots[..] == if patchOk && old(h.entry).Some?
                           then old(slots[..])[old(h.entry).value := pristine[old(h.entry).value]] else old(slots[..])
      ensures count == if patchOk && old(h.entry).Some? then old(count) - 1 else old(count)
    {
      if h.entry.None? {
        return;
      }
      assert HookOk(h);
      if !patchOk {
        return;
      }
      var k := h.entry.value;
      Write(h, k, h.original, None);
      ghost var at := Untrack(h);
      SwapRemovedElements(old(Table()), at);
      assert forall g: Hook :: g in known ==> old(ListedOk(g));
    }

    /** A slot in which no hook is installed holds its pristine function. */
    lemma FreeSlotIsPristine(k: nat)
      requires Valid() && k < slots.Length
      requires forall h: Hook :: h in known ==> h.entry != Some(k)
      ensures slots[k] == pristine[k]
    {
      assert SlotOk(k);
    }

    /** tamisu_lsm_hook_exit, when writing the slots of the hooks in fails does not succeed. */
    method Exit(fails: set<Hook>)
      requires Valid()
      modifies slots, `count, entries, known
      ensures Valid()
      ensures forall h: Hook :: h in known ==>
        h.entry == (if h in fails then old(h.entry) else None) && h.original == old(h.original)
      ensures fails == {} ==> slots[..] == pristine && count == 0
    {
      var hooks: seq<Hook?> := entries[..count];
      assert |hooks| == count && Distinct(hooks);
      assert forall h: Hook? :: h in hooks ==> h != null && h in known;
      assert forall h: Hook :: h in known && h !in hooks ==> h.entry == None;
      hide *;
      for i := |hooks| downto 0
        invariant Valid()
        invariant forall h: Hook :: h in known ==>
          h.entry == (if h in hooks[i..] && h !in fails then None else old(h.entry)) && h.original == old(h.original)
      {
        assert hooks[i] in hooks && hooks[i..] == [hooks[i]] + hooks[i + 1..];
        Unhook(hooks[i], hooks[i] !in fails);
      }
      if fails == {} {
        AllFreeIsPristine();
      }
    }

    lemma AllFreeIsPristine()
      requires Valid() && forall h: Hook :: h in known ==> h.entry == None
      ensures slots[..] == pristine && count == 0
    {
      forall k: nat | k < slots.Length
        ensures slots[k] == pristine[k]
      {
        FreeSlotIsPristine(k);
      }
      SomeElement(Table());
    }

    /** Any sequence of calls, with any lookups and any failed writes, followed by an exit whose writes
      * succeed. */
    method RunThenExit(reqs: seq<Request>)
      requires Valid()
      requires forall i :: 0 <= i < |reqs| ==> reqs[i].hook in known
      modifies slots, `count, entries, known
      ensures Valid() && slots[..] == pristine
    {
      for i := 0 to |reqs|
        invariant Valid()
      {
        match reqs[i] {
          case DoHook(h, symbol, patchOk) =>
            var _ := Install(h, symbol, patchOk);
          case DoUnhook(h, patchOk) =>
            Unhook(h, patchOk);
        }
      }
      Exit({});
    }
  }

  /** Distinct hooks have distinct replacements, none of which a slot holds to begin with. */
  ghost predicate ReplacementsOk(pristine: seq<Fn>, known: set<Hook>) {
    && (forall h: Hook, g: Hook :: h in known && g in known && h.replacement == g.replacement != 0 ==> h == g)
    && (forall h: Hook :: h in known && h.replacement != 0 ==> h.replacement !in pristine)
  }

  function Target(original: Fn, symbol: Fn): Fn {
    if original != 0 then original else symbol
  }

  ghost function ChooseResult(replacement: Fn, entry: Option<nat>, named: bool, target: Fn, pristine: seq<Fn>): int {
    if replacement == 0 then -EINVAL
    else if entry.Some? then -EALREADY
    else if !named then -EINVAL
    else if target == 0 || target !in pristine then -ENOENT
    else 0
  }

  ghost function InstallResult(replacement: Fn, entry: Option<nat>, named: bool, target: Fn, pristine: seq<Fn>,
                               count: nat, patchOk: bool): int {
    var chosen := ChooseResult(replacement, entry, named, target, pristine);
    if chosen != 0 then chosen
    else if count >= TABLE_SIZE then -ENOSPC
    else if !patchOk then -EFAULT
    else 0
  }

  /** Which error an install gives, by its number: no replacement or no name; hooked already; no such function or slot;
    * a full table; a failed write. */
  lemma InstallErrors(replacement: Fn, entry: Option<nat>, named: bool, target: Fn, pristine: seq<Fn>, count: nat,
                      patchOk: bool)
    ensures var ret := InstallResult(replacement, entry, named, target, pristine, count, patchOk);
            var found := target != 0 && target in pristine;
            && (ret == -22 <==> replacement == 0 || (entry.None? && !named))
            && (ret == -114 <==> replacement != 0 && entry.Some?)
            && (ret == -2 <==> replacement != 0 && entry.None? && named && !found)
            && (ret == -28 <==> replacement != 0 && entry.None? && named && found && count >= 16)
            && (ret == -14 <==> replacement != 0 && entry.None? && named && found && count < 16 && !patchOk)
            && (ret == 0 <==> replacement != 0 && entry.None? && named && found && count < 16 && patchOk)
  {
  }
}
