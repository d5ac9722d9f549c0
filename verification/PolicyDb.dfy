/** The policy database: the chained access-vector table and the rule edits on it. */
module PolicyDb {
  import opened Basics
  import opened AvTab
  import opened RuleSets
  import opened RuleLaws

  /** Bytes one access-vector node adds to the serialized policy: key and datum. */
  const KEY_SIZE := 8
  const DATUM_SIZE := 8

  /** What a policy object holds at one moment. */
  datatype Contents = Contents(sym: Symbols, hash: AvKey -> nat, chains: seq<Chain>, nel: nat, len: int)
  {
    ghost predicate Wf() {
      WfTable(chains, hash) && nel == NodeCount(chains)
    }

    ghost function Lookup(k: AvKey): Option<Av>
      requires |chains| > 0
    {
      Look(chains, hash, k)
    }

    /** The effective access vector of a key: an absent node counts as the neutral value. */
    ghost function Vec(k: AvKey): Av
      requires |chains| > 0
    {
      Lookup(k).GetOr(Neutral(k.effect))
    }

    /** The part of the policy's length that is not access-vector nodes. */
    ghost function LenOfRest(): int {
      len - (KEY_SIZE + DATUM_SIZE) * nel
    }
  }

  /** q is what one rule makes of p; ok is whether its names resolve. */
  ghost predicate Ruled(p: Contents, e: RuleEdit, q: Contents, ok: bool) {
    && p.Wf() && q.Wf() && q.sym == p.sym && q.hash == p.hash && q.LenOfRest() == p.LenOfRest()
    && (ok <==> p.sym.Resolve(e.names).Some?)
    && forall k :: q.Lookup(k) == p.sym.LookEdit(e, k, p.Lookup(k))
  }

  class PolicyDb {
    // the rule edits never change the symbol tables
    const sym: Symbols
    // the table's hash function, before reduction to a slot
    const hash: AvKey -> nat

    var htable: array<Chain>
    var nel: nat
    var len: int

    ghost predicate Valid()
      reads `htable, `nel, htable
    {
      WfTable(htable[..], hash) && nel == NodeCount(htable[..])
    }

    ghost function Now(): Contents
      reads this, htable
    {
      Contents(sym, hash, htable[..], nel, len)
    }

    ghost function Lookup(k: AvKey): Option<Av>
      requires htable.Length > 0
      reads `htable, htable
    {
      Look(htable[..], hash, k)
    }

    /** The effective access vector of a key: an absent node counts as the neutral value. */
    ghost function Vec(k: AvKey): Av
      requires htable.Length > 0
      reads `htable, htable
    {
      Lookup(k).GetOr(Neutral(k.effect))
    }

    ghost function LenOfRest(): int
      reads `len, `nel
    {
      len - (KEY_SIZE + DATUM_SIZE) * nel
    }

    /** A deep copy; writing the policy out and reading it back may rebuild the table with any
      * number of slots. */
    constructor Duplicate(old_pol: PolicyDb)
      requires old_pol.Valid()
      ensures Valid() && fresh(htable)
      ensures sym == old_pol.sym && hash == old_pol.hash
      ensures nel == old_pol.nel && len == old_pol.len
      ensures forall k :: Lookup(k) == old_pol.Lookup(k)
    {
      sym, hash := old_pol.sym, old_pol.hash;
      nel, len := old_pol.nel, old_pol.len;
      var t := new Chain[old_pol.htable.Length](
        i requires 0 <= i < old_pol.htable.Length reads old_pol, old_pol.htable => old_pol.htable[i]);
      htable := t;
      new;
      assert htable[..] == old_pol.htable[..];
    }

    /** A policy object with given contents. */
    constructor Of(c: Contents)
      requires c.Wf()
      ensures Valid() && fresh(htable) && Now() == c
    {
      sym, hash := c.sym, c.hash;
      nel, len := c.nel, c.len;
      var t := new Chain[|c.chains|](i requires 0 <= i < |c.chains| => c.chains[i]);
      htable := t;
      new;
      assert htable[..] == c.chains;
    }

    // ---------- node access ----------

    /** avtab_search_node: the position of the key's node in its chain. */
    method SearchNode(k: AvKey) returns (pos: Option<nat>)
      requires Valid()
      ensures pos.Some? ==> pos.value < |htable[Slot(htable[..], hash, k)]|
                            && htable[Slot(htable[..], hash, k)][pos.value].key == k
                            && Lookup(k) == Some(htable[Slot(htable[..], hash, k)][pos.value].data)
      ensures pos.None? ==> !HasKey(htable[Slot(htable[..], hash, k)], k) && Lookup(k) == None
    {
      var s := hash(k) % htable.Length;
      for i := 0 to |htable[s]|
        invariant forall j :: 0 <= j < i ==> htable[s][j].key != k
      {
        if htable[s][i].key == k {
          FindAt(htable[s], i);
          return Some(i);
        }
      }
      return None;
    }

    /** avtab_insert_nonunique: links a new node somewhere into its chain. */
    method InsertNonunique(k: AvKey, data: Av) returns (pos: nat)
      requires Valid() && Lookup(k) == None
      modifies this`nel, htable
      ensures Valid() && nel == old(nel) + 1
      ensures pos < |htable[Slot(htable[..], hash, k)]|
      ensures htable[Slot(htable[..], hash, k)][pos] == AvNode(k, data)
      ensures forall k' :: Lookup(k') == if k' == k then Some(data) else old(Lookup(k'))
    {
      ghost var t := htable[..];
      var s := hash(k) % htable.Length;
      var c := htable[s];
      pos :| 0 <= pos <= |c|;
      FindInserted(c, pos, k, data);
      var c' := c[..pos] + [AvNode(k, data)] + c[pos..];
      assert forall j :: 0 <= j < |c'| ==>
        c'[j] == if j < pos then c[j] else if j == pos then AvNode(k, data) else c[j - 1];
      TableUpdate(t, hash, s, c');
      NodeCountUpdate(t, s, c');
      htable[s] := c';
      nel := nel + 1;
      assert htable[..] == t[s := c'];
    }

    /** get_avtab_node: find the key's node or insert one with the neutral value. */
    method GetAvtabNode(k: AvKey) returns (pos: nat)
      requires Valid()
      modifies this`nel, this`len, htable
      ensures Valid()
      ensures pos < |htable[Slot(htable[..], hash, k)]| && htable[Slot(htable[..], hash, k)][pos].key == k
      ensures Lookup(k) == Some(htable[Slot(htable[..], hash, k)][pos].data)
      ensures Lookup(k) == Some(old(Vec(k)))
      ensures forall k' :: k' != k ==> Lookup(k') == old(Lookup(k'))
      ensures LenOfRest() == old(LenOfRest())
    {
      var found := SearchNode(k);
      if found.Some? {
        pos := found.value;
      } else {
        pos := InsertNonunique(k, if k.effect == AuditDeny then ALL_BITS else {});
        var growSize := KEY_SIZE + DATUM_SIZE;
        len := len + growSize;
      }
    }

    /** is_redundant_avtab_node */
    predicate IsRedundant(n: AvNode) {
      if n.key.effect == AuditDeny then n.data == ALL_BITS else n.data == {}
    }

    /** remove_avtab_node: scan the whole table for the node and unlink it. */
    method RemoveAvtabNode(s: nat, pos: nat) returns (ok: bool)
      requires Valid() && s < htable.Length && pos < |htable[s]|
      modifies this`nel, this`len, htable
      ensures ok && Valid()
      ensures nel == old(nel) - 1 && len == old(len) - (KEY_SIZE + DATUM_SIZE)
      ensures forall k :: Lookup(k) == if k == old(htable[s][pos].key) then None else old(Lookup(k))
    {
      ghost var t := htable[..];
      ghost var key := htable[s][pos].key;
      var shrinkSize := KEY_SIZE + DATUM_SIZE;
      var i := 0;
      while i < htable.Length
        invariant i <= s && htable[..] == t
        invariant nel == old(nel) && len == old(len)
      {
        var n := 0;
        while n < |htable[i]|
          invariant n <= |htable[i]| && (i == s ==> n <= pos)
          invariant htable[..] == t && nel == old(nel) && len == old(len)
        {
          if i == s && n == pos {
            var c := htable[i];
            FindRemoved(c, n);
            FindAt(c, n);
            var c' := c[..n] + c[n + 1..];
            assert forall j :: 0 <= j < |c'| ==> c'[j] == if j < n then c[j] else c[j + 1];
            TableUpdate(t, hash, i, c');
            NodeCountUpdate(t, i, c');
            NodeCountUpdate(t, i, []);
            htable[i] := c';
            if nel > 0 {
              nel := nel - 1;
            }
            len := len - shrinkSize;
            assert htable[..] == t[i := c'];
            return true;
          }
          n := n + 1;
        }
        i := i + 1;
      }
      assert false;
      return false;
    }

    /** node->datum.u.data = data */
    method SetData(s: nat, pos: nat, data: Av)
      requires Valid() && s < htable.Length && pos < |htable[s]|
      modifies htable
      ensures Valid() && htable[s] == old(htable[s])[pos := AvNode(old(htable[s][pos].key), data)]
      ensures forall k :: Lookup(k) == if k == old(htable[s][pos].key) then Some(data) else old(Lookup(k))
    {
      ghost var t := htable[..];
      var c := htable[s];
      FindReplaced(c, pos, data);
      var c' := c[pos := AvNode(c[pos].key, data)];
      assert forall j :: 0 <= j < |c'| ==> c'[j].key == c[j].key;
      TableUpdate(t, hash, s, c');
      NodeCountUpdate(t, s, c');
      htable[s] := c';
      assert htable[..] == t[s := c'];
    }

    // ---------- rule edits ----------

    /** Table t' is table t with exactly the selected entries edited. */
    ghost predicate Edited(t: seq<Chain>, t': seq<Chain>, sel: iset<AvKey>, invert: bool, mask: Av) {
      && |t| > 0 && |t'| > 0
      && forall k :: Look(t', hash, k) ==
                     if k in sel then Edit(Look(t, hash, k), k.effect, invert, mask) else Look(t, hash, k)
    }

    lemma NothingEdited(t: seq<Chain>, sel: iset<AvKey>, invert: bool, mask: Av)
      requires |t| > 0 && sel == iset{}
      ensures Edited(t, t, sel, invert, mask)
    {
    }

    lemma EditedThenEdited(t: seq<Chain>, t1: seq<Chain>, t2: seq<Chain>,
                           sel1: iset<AvKey>, sel2: iset<AvKey>, invert: bool, mask: Av)
      requires Edited(t, t1, sel1, invert, mask) && Edited(t1, t2, sel2, invert, mask)
      ensures Edited(t, t2, sel1 + sel2, invert, mask)
    {
      forall k
        ensures Look(t2, hash, k) ==
                if k in sel1 + sel2 then Edit(Look(t, hash, k), k.effect, invert, mask) else Look(t, hash, k)
      {
        EditIdempotent(Look(t, hash, k), k.effect, invert, mask);
      }
    }

    /** The fully specified case of add_rule_raw: edit one entry, and drop the node if nothing is left. */
    method EditEntry(key: AvKey, perm: Option<PermValue>, invert: bool)
      requires Valid()
      modifies `nel, `len, htable
      ensures Valid()
      ensures forall k :: Lookup(k) ==
                          if k == key then Edit(old(Lookup(k)), k.effect, invert, Mask(perm)) else old(Lookup(k))
      ensures LenOfRest() == old(LenOfRest())
    {
      var s := hash(key) % htable.Length;
      var pos: nat;
      if invert {
        var found := SearchNode(key);
        if found.None? {
          return;
        }
        pos := found.value;
      } else {
        pos := GetAvtabNode(key);
      }
      var data := htable[s][pos].data;
      if invert {
        data := if perm.Some? then data - {perm.value} else {};
      } else {
        data := if perm.Some? then data + {perm.value} else ALL_BITS;
      }
      assert data == if invert then htable[s][pos].data - Mask(perm) else htable[s][pos].data + Mask(perm);
      SetData(s, pos, data);
      if IsRedundant(htable[s][pos]) {
        var ok := RemoveAvtabNode(s, pos);
      }
    }

    /** add_rule_raw: apply one rule, expanding omitted operands. */
    method AddRuleRaw(src: Option<TypeDatum>, tgt: Option<TypeDatum>, cls: Option<ClassDatum>,
                      perm: Option<PermValue>, effect: Effect, invert: bool)
      requires Valid()
      modifies `nel, `len, htable
      ensures Valid()
      ensures Edited(old(htable[..]), htable[..], sym.Selected(src, tgt, cls, effect, invert), invert, Mask(perm))
      ensures LenOfRest() == old(LenOfRest())
      decreases if src.None? then 1 else 0, if tgt.None? then 1 else 0, if cls.None? then 1 else 0, 1
    {
      if src.None? {
        AddRuleAllSources(tgt, cls, perm, effect, invert);
      } else if tgt.None? {
        AddRuleAllTargets(src, cls, perm, effect, invert);
      } else if cls.None? {
        AddRuleAllClasses(src, tgt, perm, effect, invert);
      } else {
        EditEntry(AvKey(src.value.value, tgt.value.value, cls.value.value, effect), perm, invert);
      }
    }

    /** The loop over the type table for an omitted source. */
    method AddRuleAllSources(tgt: Option<TypeDatum>, cls: Option<ClassDatum>, perm: Option<PermValue>,
              effect: Effect, invert: bool)
      requires Valid()
      modifies `nel, `len, htable
      ensures Valid() && LenOfRest() == old(LenOfRest())
      ensures Edited(old(htable[..]), htable[..], sym.Selected(None, tgt, cls, effect, invert), invert, Mask(perm))
      decreases 1, if tgt.None? then 1 else 0, if cls.None? then 1 else 0, 0
    {
      ghost var t0 := htable[..];
      assert |t0| > 0;
      hide *;
      sym.UpToEnds(None, tgt, cls, effect, invert);
      NothingEdited(t0, sym.SourcesUpTo(0, tgt, cls, effect, invert), invert, Mask(perm));
      for i := 0 to |sym.types|
        invariant Valid() && LenOfRest() == old(LenOfRest())
        invariant Edited(t0, htable[..], sym.SourcesUpTo(i, tgt, cls, effect, invert), invert, Mask(perm))
      {
        ghost var t1 := htable[..];
        AddSourceRow(i, tgt, cls, perm, effect, invert);
        sym.MoreSources(i, tgt, cls, effect, invert);
        EditedThenEdited(t0, t1, htable[..], sym.SourcesUpTo(i, tgt, cls, effect, invert),
                         sym.SourceRow(i, tgt, cls, effect, invert), invert, Mask(perm));
      }
    }

    /** One row of that table as the source, if an omitted type ranges over it. */
    method AddSourceRow(i: nat, tgt: Option<TypeDatum>, cls: Option<ClassDatum>, perm: Option<PermValue>,
              effect: Effect, invert: bool)
      requires Valid() && i < |sym.types|
      modifies `nel, `len, htable
      ensures Valid() && LenOfRest() == old(LenOfRest())
      ensures Edited(old(htable[..]), htable[..], sym.SourceRow(i, tgt, cls, effect, invert), invert, Mask(perm))
      decreases 0, if tgt.None? then 1 else 0, if cls.None? then 1 else 0, 2
    {
      if sym.RowSelects(i, effect, invert) {
        AddRuleRaw(Some(sym.types[i]), tgt, cls, perm, effect, invert);
      } else {
        NothingEdited(htable[..], sym.SourceRow(i, tgt, cls, effect, invert), invert, Mask(perm));
      }
    }

    /** The loop over the type table for an omitted target. */
    method AddRuleAllTargets(src: Option<TypeDatum>, cls: Option<ClassDatum>, perm: Option<PermValue>,
              effect: Effect, invert: bool)
      requires Valid() && src.Some?
      modifies `nel, `len, htable
      ensures Valid() && LenOfRest() == old(LenOfRest())
      ensures Edited(old(htable[..]), htable[..], sym.Selected(src, None, cls, effect, invert), invert, Mask(perm))
      decreases 0, 1, if cls.None? then 1 else 0, 0
    {
      ghost var t0 := htable[..];
      assert |t0| > 0;
      hide *;
      sym.UpToEnds(src, None, cls, effect, invert);
      NothingEdited(t0, sym.TargetsUpTo(src, 0, cls, effect, invert), invert, Mask(perm));
      for i := 0 to |sym.types|
        invariant Valid() && LenOfRest() == old(LenOfRest())
        invariant Edited(t0, htable[..], sym.TargetsUpTo(src, i, cls, effect, invert), invert, Mask(perm))
      {
        ghost var t1 := htable[..];
        AddTargetRow(src, i, cls, perm, effect, invert);
        sym.MoreTargets(src, i, cls, effect, invert);
        EditedThenEdited(t0, t1, htable[..], sym.TargetsUpTo(src, i, cls, effect, invert),
                         sym.TargetRow(src, i, cls, effect, invert), invert, Mask(perm));
      }
    }

    /** One row of that table as the target, if an omitted type ranges over it. */
    method AddTargetRow(src: Option<TypeDatum>, i: nat, cls: Option<ClassDatum>, perm: Option<PermValue>,
              effect: Effect, invert: bool)
      requires Valid() && i < |sym.types| && src.Some?
      modifies `nel, `len, htable
      ensures Valid() && LenOfRest() == old(LenOfRest())
      ensures Edited(old(htable[..]), htable[..], sym.TargetRow(src, i, cls, effect, invert), invert, Mask(perm))
      decreases 0, 0, if cls.None? then 1 else 0, 2
    {
      if sym.RowSelects(i, effect, invert) {
        AddRuleRaw(src, Some(sym.types[i]), cls, perm, effect, invert);
      } else {
        NothingEdited(htable[..], sym.TargetRow(src, i, cls, effect, invert), invert, Mask(perm));
      }
    }

    /** The loop over the class table for an omitted class. */
    method AddRuleAllClasses(src: Option<TypeDatum>, tgt: Option<TypeDatum>, perm: Option<PermValue>,
              effect: Effect, invert: bool)
      requires Valid() && src.Some? && tgt.Some?
      modifies `nel, `len, htable
      ensures Valid() && LenOfRest() == old(LenOfRest())
      ensures Edited(old(htable[..]), htable[..], sym.Selected(src, tgt, None, effect, invert), invert, Mask(perm))
      decreases 0, 0, 1, 0
    {
      ghost var t0 := htable[..];
      assert |t0| > 0;
      hide *;
      sym.UpToEnds(src, tgt, None, effect, invert);
      NothingEdited(t0, sym.ClassesUpTo(src, tgt, 0, effect, invert), invert, Mask(perm));
      for i := 0 to |sym.classes|
        invariant Valid() && LenOfRest() == old(LenOfRest())
        invariant Edited(t0, htable[..], sym.ClassesUpTo(src, tgt, i, effect, invert), invert, Mask(perm))
      {
        ghost var t1 := htable[..];
        AddRuleRaw(src, tgt, Some(sym.classes[i]), perm, effect, invert);
        sym.MoreClasses(src, tgt, i, effect, invert);
        EditedThenEdited(t0, t1, htable[..], sym.ClassesUpTo(src, tgt, i, effect, invert),
                         sym.Selected(src, tgt, Some(sym.classes[i]), effect, invert), invert, Mask(perm));
      }
    }

    // ---------- rules by name ----------

    /** add_rule */
    method AddRule(r: RuleNames, effect: Effect, invert: bool) returns (ok: bool)
      requires Valid()
      modifies `nel, `len, htable
      ensures Valid() && LenOfRest() == old(LenOfRest())
      ensures ok <==> sym.Resolve(r).Some?
      ensures Edited(old(htable[..]), htable[..], sym.Touches(r, effect, invert), invert, sym.RuleMask(r))
    {
      var src: Option<TypeDatum> := None;
      var tgt: Option<TypeDatum> := None;
      var cls: Option<ClassDatum> := None;
      var perm: Option<PermValue> := None;
      if r.src.Some? {
        src := sym.FindType(r.src.value);
        if src.None? {
          return false;
        }
      }
      if r.tgt.Some? {
        tgt := sym.FindType(r.tgt.value);
        if tgt.None? {
          return false;
        }
      }
      if r.cls.Some? {
        cls := sym.FindClass(r.cls.value);
        if cls.None? {
          return false;
        }
      }
      if r.perm.Some? {
        if r.cls.None? {
          return false;
        }
        perm := FindPerm(cls.value, r.perm.value);
        if perm.None? {
          return false;
        }
      }
      AddRuleRaw(src, tgt, cls, perm, effect, invert);
      return true;
    }

    /** tamisu_allow */
    method Allow(r: RuleNames) returns (ok: bool)
      requires Valid()
      modifies `nel, `len, htable
      ensures Valid() && LenOfRest() == old(LenOfRest())
      ensures ok <==> sym.Resolve(r).Some?
      ensures forall k ::
                Vec(k) == if k in sym.Touches(r, Allowed, false) then old(Vec(k)) + sym.RuleMask(r) else old(Vec(k))
      ensures forall k ::
                if k in sym.Touches(r, Allowed, false) then Lookup(k) != Some({}) else Lookup(k) == old(Lookup(k))
      ensures ok <==> Known(sym, r)
      ensures forall k :: Lookup(k) == if k.effect == Allowed && Names(sym, r, true, k)
                                       then Given(old(Lookup(k)), Bits(sym, r)) else old(Lookup(k))
    {
      ok := AddRule(r, Allowed, false);
      NodesEdited(old(htable[..]), htable[..], r, Allowed, false);
    }

    /** tamisu_deny */
    method Deny(r: RuleNames) returns (ok: bool)
      requires Valid()
      modifies `nel, `len, htable
      ensures Valid() && LenOfRest() == old(LenOfRest())
      ensures ok <==> sym.Resolve(r).Some?
      ensures forall k ::
                Vec(k) == if k in sym.Touches(r, Allowed, true) then old(Vec(k)) - sym.RuleMask(r) else old(Vec(k))
      ensures forall k ::
                if k in sym.Touches(r, Allowed, true) then Lookup(k) != Some({}) else Lookup(k) == old(Lookup(k))
      ensures ok <==> Known(sym, r)
      ensures forall k :: Lookup(k) == if k.effect == Allowed && Names(sym, r, false, k)
                                       then Taken(old(Lookup(k)), Bits(sym, r)) else old(Lookup(k))
    {
      ok := AddRule(r, Allowed, true);
      NodesEdited(old(htable[..]), htable[..], r, Allowed, true);
    }

    /** tamisu_auditallow */
    method AuditAllowRule(r: RuleNames) returns (ok: bool)
      requires Valid()
      modifies `nel, `len, htable
      ensures Valid() && LenOfRest() == old(LenOfRest())
      ensures ok <==> sym.Resolve(r).Some?
      ensures forall k ::
                Vec(k) == if k in sym.Touches(r, AuditAllow, false) then old(Vec(k)) + sym.RuleMask(r) else old(Vec(k))
      ensures forall k ::
                if k in sym.Touches(r, AuditAllow, false) then Lookup(k) != Some({}) else Lookup(k) == old(Lookup(k))
      ensures ok <==> Known(sym, r)
      ensures forall k :: Lookup(k) == if k.effect == AuditAllow && Names(sym, r, true, k)
                                       then Given(old(Lookup(k)), Bits(sym, r)) else old(Lookup(k))
    {
      ok := AddRule(r, AuditAllow, false);
      NodesEdited(old(htable[..]), htable[..], r, AuditAllow, false);
    }

    /** tamisu_dontaudit: clears bits only where an auditdeny node already exists. */
    method DontAudit(r: RuleNames) returns (ok: bool)
      requires Valid()
      modifies `nel, `len, htable
      ensures Valid() && LenOfRest() == old(LenOfRest())
      ensures ok <==> sym.Resolve(r).Some?
      ensures forall k :: Vec(k) == if k in sym.Touches(r, AuditDeny, true) && old(Lookup(k)).Some?
                                    then old(Vec(k)) - sym.RuleMask(r) else old(Vec(k))
      ensures ok <==> Known(sym, r)
      ensures forall k :: Lookup(k) == if k.effect == AuditDeny && Names(sym, r, true, k)
                                       then Silenced(old(Lookup(k)), Bits(sym, r)) else old(Lookup(k))
    {
      ok := AddRule(r, AuditDeny, true);
      NodesEdited(old(htable[..]), htable[..], r, AuditDeny, true);
    }

    /** An edit of the entries a rule touches, in the terms of the rule's names. */
    lemma NodesEdited(t: seq<Chain>, t': seq<Chain>, r: RuleNames, effect: Effect, invert: bool)
      requires Edited(t, t', sym.Touches(r, effect, invert), invert, sym.RuleMask(r))
      ensures sym.Resolve(r).Some? <==> Known(sym, r)
      ensures forall k :: Look(t', hash, k) ==
                          if k.effect == effect && Names(sym, r, if effect == AuditDeny then invert else !invert, k)
                          then Edit(Look(t, hash, k), effect, invert, Bits(sym, r)) else Look(t, hash, k)
      ensures Known(sym, r) ==>
                forall cur :: && Edit(cur, Allowed, false, Bits(sym, r)) == Given(cur, Bits(sym, r))
                              && Edit(cur, AuditAllow, false, Bits(sym, r)) == Given(cur, Bits(sym, r))
                              && Edit(cur, Allowed, true, Bits(sym, r)) == Taken(cur, Bits(sym, r))
                              && Edit(cur, AuditDeny, true, Bits(sym, r)) == Silenced(cur, Bits(sym, r))
    {
      ResolveIffKnown(sym, r);
      hide Look, Edit, Symbols.Touches, Symbols.RuleMask, Symbols.Resolve;
      if Known(sym, r) {
        RuleMaskIsBits(sym, r);
        forall cur
          ensures && Edit(cur, Allowed, false, Bits(sym, r)) == Given(cur, Bits(sym, r))
                  && Edit(cur, AuditAllow, false, Bits(sym, r)) == Given(cur, Bits(sym, r))
                  && Edit(cur, Allowed, true, Bits(sym, r)) == Taken(cur, Bits(sym, r))
                  && Edit(cur, AuditDeny, true, Bits(sym, r)) == Silenced(cur, Bits(sym, r))
        {
          EditIs(cur, Bits(sym, r));
        }
      }
      forall k
        ensures Look(t', hash, k) ==
                if k.effect == effect && Names(sym, r, if effect == AuditDeny then invert else !invert, k)
                then Edit(Look(t, hash, k), effect, invert, Bits(sym, r)) else Look(t, hash, k)
      {
        TouchesIffNames(sym, r, effect, invert, k);
      }
    }

    // ---------- sequences of edits ----------

    /** The entry point for the rule's operation. */
    method ApplyEdit(e: RuleEdit) returns (ok: bool)
      requires Valid()
      modifies `nel, `len, htable
      ensures Valid() && Ruled(old(Now()), e, Now(), ok)
    {
      ok := AddRule(e.names, e.op.Effect(), e.op.Inverts());
    }

    /** Any sequence of rules: the table holds the folded edits, which for allow, deny and auditallow are the
      * folded set readings; no touched entry keeps a node at its neutral value; and the node count and
      * serialized length stay exact. */
    method ApplyEdits(edits: seq<RuleEdit>) returns (applied: nat)
      requires Valid()
      modifies `nel, `len, htable
      ensures Valid() && nel == NodeCount(htable[..])
      ensures len - old(len) == (KEY_SIZE + DATUM_SIZE) * (nel - old(nel)) == 16 * (nel - old(nel))
      ensures forall k :: Lookup(k) == sym.LookAfter(edits, k, old(Lookup(k)))
      ensures forall k: AvKey :: k.effect != AuditDeny || (forall e: RuleEdit :: e in edits ==> e.op != OpDontAudit) ==>
                Vec(k) == sym.VecAfter(edits, k, old(Vec(k)))
      ensures forall i, k :: 0 <= i < |edits| && k in sym.TouchedBy(edits[i]) ==> Lookup(k) != Some(Neutral(k.effect))
      ensures applied == |edits| <==> forall e :: e in edits ==> sym.Resolve(e.names).Some?
    {
      applied := 0;
      for n := 0 to |edits|
        invariant Valid() && LenOfRest() == old(LenOfRest())
        invariant forall k :: Lookup(k) == sym.LookAfter(edits[..n], k, old(Lookup(k)))
        invariant applied <= n
        invariant applied == n <==> forall e :: e in edits[..n] ==> sym.Resolve(e.names).Some?
      {
        assert edits[..n + 1][..n] == edits[..n] && edits[..n + 1] == edits[..n] + [edits[n]];
        ghost var before := Now();
        var ok := ApplyEdit(edits[n]);
        assert forall k :: Now().Lookup(k) == sym.LookEdit(edits[n], k, before.Lookup(k));
        assert forall k :: Lookup(k) == Now().Lookup(k);
        if ok {
          applied := applied + 1;
        }
      }
      assert edits[..|edits|] == edits;
      forall k: AvKey | k.effect != AuditDeny || forall e: RuleEdit :: e in edits ==> e.op != OpDontAudit
        ensures Vec(k) == sym.VecAfter(edits, k, old(Vec(k)))
      {
        sym.LookIsVec(edits, k, old(Lookup(k)));
      }
      forall i, k | 0 <= i < |edits| && k in sym.TouchedBy(edits[i])
        ensures Lookup(k) != Some(Neutral(k.effect))
      {
        sym.TouchedNotNeutral(edits, k, old(Lookup(k)), i);
      }
    }
  }
}
