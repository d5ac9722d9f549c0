/** What policy rules mean: the symbol tables that rules name things by, and the set of table entries that a rule,
  * wildcards included, selects. */
module RuleSets {
  import opened Basics
  import opened AvTab

  /** Looks a permission up in its class and then in the class's common permissions. */
  function FindPerm(cls: ClassDatum, name: string): Option<PermValue> {
    if name in cls.permissions then Some(cls.permissions[name])
    else if name in cls.common then Some(cls.common[name])
    else None
  }

  datatype RuleOp = OpAllow | OpDeny | OpAuditAllow | OpDontAudit
  {
    /** The arguments with which the entry points call add_rule. */
    function Effect(): Effect {
      match this
      case OpAllow => Allowed
      case OpDeny => Allowed
      case OpAuditAllow => AuditAllow
      case OpDontAudit => AuditDeny
    }

    predicate Inverts() {
      OpDeny? || OpDontAudit?
    }
  }

  datatype RuleEdit = RuleEdit(op: RuleOp, names: RuleNames)

  /** The names in a rule; None is an omitted operand (`*`). */
  datatype RuleNames = RuleNames(src: Option<string>, tgt: Option<string>, cls: Option<string>, perm: Option<string>)

  datatype Operands = Operands(src: Option<TypeDatum>, tgt: Option<TypeDatum>, cls: Option<ClassDatum>,
                               perm: Option<PermValue>)

  /** The symbol tables of a policy, in table order, and the name table indexed by type value - 1. */
  datatype Symbols = Symbols(types: seq<TypeDatum>, classes: seq<ClassDatum>, typeNames: seq<Option<string>>)
  {
    /** symtab_search on the type table. */
    function FindType(name: string): Option<TypeDatum> {
      FindTypeFrom(name, 0)
    }

    function FindTypeFrom(name: string, i: nat): Option<TypeDatum>
      requires i <= |types|
      decreases |types| - i
    {
      if i == |types| then None
      else if types[i].name == name then Some(types[i])
      else FindTypeFrom(name, i + 1)
    }

    function FindClass(name: string): Option<ClassDatum> {
      FindClassFrom(name, 0)
    }

    function FindClassFrom(name: string, i: nat): Option<ClassDatum>
      requires i <= |classes|
      decreases |classes| - i
    {
      if i == |classes| then None
      else if classes[i].name == name then Some(classes[i])
      else FindClassFrom(name, i + 1)
    }

    // ---------- the entries a rule selects ----------

    /** Whether value v is named by a type operand; an omitted one ranges over the first n types. */
    ghost predicate TypeIn(sel: Option<TypeDatum>, n: nat, strip: bool, v: U16)
      requires n <= |types|
    {
      match sel
      case Some(d) => d.value == v
      case None => exists i :: 0 <= i < n && types[i].value == v && (strip || types[i].attribute)
    }

    ghost predicate ClassIn(sel: Option<ClassDatum>, n: nat, v: U16)
      requires n <= |classes|
    {
      match sel
      case Some(d) => d.value == v
      case None => exists i :: 0 <= i < n && classes[i].value == v
    }

    /** The set reading of a rule, with the operands that range over a table cut off after ns, nt and
      * nc rows: the source x target x class entries it names. */
    ghost function SelectedUpTo(src: Option<TypeDatum>, ns: nat, tgt: Option<TypeDatum>, nt: nat,
                                cls: Option<ClassDatum>, nc: nat, effect: Effect, invert: bool): iset<AvKey>
      requires ns <= |types| && nt <= |types| && nc <= |classes|
    {
      iset k: AvKey | && k.effect == effect
                      && TypeIn(src, ns, StripAv(effect, invert), k.source)
                      && TypeIn(tgt, nt, StripAv(effect, invert), k.target)
                      && ClassIn(cls, nc, k.cls)
    }

    ghost function Selected(src: Option<TypeDatum>, tgt: Option<TypeDatum>, cls: Option<ClassDatum>,
                            effect: Effect, invert: bool): iset<AvKey>
    {
      SelectedUpTo(src, |types|, tgt, |types|, cls, |classes|, effect, invert)
    }

    /** The entries selected by the first n rows of the table that an omitted operand ranges over. */
    ghost function SourcesUpTo(n: nat, tgt: Option<TypeDatum>, cls: Option<ClassDatum>, effect: Effect,
                               invert: bool): iset<AvKey>
      requires n <= |types|
    {
      SelectedUpTo(None, n, tgt, |types|, cls, |classes|, effect, invert)
    }

    ghost function TargetsUpTo(src: Option<TypeDatum>, n: nat, cls: Option<ClassDatum>, effect: Effect,
                               invert: bool): iset<AvKey>
      requires n <= |types|
    {
      SelectedUpTo(src, |types|, None, n, cls, |classes|, effect, invert)
    }

    ghost function ClassesUpTo(src: Option<TypeDatum>, tgt: Option<TypeDatum>, n: nat, effect: Effect,
                               invert: bool): iset<AvKey>
      requires n <= |classes|
    {
      SelectedUpTo(src, |types|, tgt, |types|, None, n, effect, invert)
    }

    /** Whether an omitted type ranges over row i. */
    predicate RowSelects(i: nat, effect: Effect, invert: bool)
      requires i < |types|
    {
      StripAv(effect, invert) || types[i].attribute
    }

    lemma TypeInMore(i: nat, effect: Effect, invert: bool, v: U16)
      requires i < |types|
      ensures TypeIn(None, i + 1, StripAv(effect, invert), v) <==>
              TypeIn(None, i, StripAv(effect, invert), v) || (RowSelects(i, effect, invert) && types[i].value == v)
    {
    }

    ghost function SourceRow(i: nat, tgt: Option<TypeDatum>, cls: Option<ClassDatum>, effect: Effect,
                             invert: bool): iset<AvKey>
      requires i < |types|
    {
      if RowSelects(i, effect, invert) then Selected(Some(types[i]), tgt, cls, effect, invert) else iset{}
    }

    ghost function TargetRow(src: Option<TypeDatum>, i: nat, cls: Option<ClassDatum>, effect: Effect,
                             invert: bool): iset<AvKey>
      requires i < |types|
    {
      if RowSelects(i, effect, invert) then Selected(src, Some(types[i]), cls, effect, invert) else iset{}
    }

    /** One more row of the type table adds what that row selects as a source. */
    lemma MoreSources(i: nat, tgt: Option<TypeDatum>, cls: Option<ClassDatum>, effect: Effect, invert: bool)
      requires i < |types|
      ensures SourcesUpTo(i + 1, tgt, cls, effect, invert) ==
              SourcesUpTo(i, tgt, cls, effect, invert) + SourceRow(i, tgt, cls, effect, invert)
    {
      forall v {
        TypeInMore(i, effect, invert, v);
      }
    }

    lemma MoreTargets(src: Option<TypeDatum>, i: nat, cls: Option<ClassDatum>, effect: Effect, invert: bool)
      requires i < |types|
      ensures TargetsUpTo(src, i + 1, cls, effect, invert) ==
              TargetsUpTo(src, i, cls, effect, invert) + TargetRow(src, i, cls, effect, invert)
    {
      forall v {
        TypeInMore(i, effect, invert, v);
      }
    }

    lemma MoreClasses(src: Option<TypeDatum>, tgt: Option<TypeDatum>, i: nat, effect: Effect, invert: bool)
      requires i < |classes|
      ensures ClassesUpTo(src, tgt, i + 1, effect, invert) ==
              ClassesUpTo(src, tgt, i, effect, invert) + Selected(src, tgt, Some(classes[i]), effect, invert)
    {
      forall v
        ensures ClassIn(None, i + 1, v) <==> ClassIn(None, i, v) || classes[i].value == v
      {
      }
    }

    /** None of the rows select nothing, all of them everything. */
    lemma UpToEnds(src: Option<TypeDatum>, tgt: Option<TypeDatum>, cls: Option<ClassDatum>, effect: Effect,
                   invert: bool)
      ensures SourcesUpTo(0, tgt, cls, effect, invert) == TargetsUpTo(src, 0, cls, effect, invert) ==
              ClassesUpTo(src, tgt, 0, effect, invert) == iset{}
      ensures SourcesUpTo(|types|, tgt, cls, effect, invert) == Selected(None, tgt, cls, effect, invert)
      ensures TargetsUpTo(src, |types|, cls, effect, invert) == Selected(src, None, cls, effect, invert)
      ensures ClassesUpTo(src, tgt, |classes|, effect, invert) == Selected(src, tgt, None, effect, invert)
    {
    }

    // ---------- rules by name ----------

    /** What the names of a rule refer to; None when add_rule rejects them. */
    function Resolve(r: RuleNames): Option<Operands> {
      var src := if r.src.None? then None else FindType(r.src.value);
      var tgt := if r.tgt.None? then None else FindType(r.tgt.value);
      var cls := if r.cls.None? then None else FindClass(r.cls.value);
      if (r.src.Some? && src.None?) || (r.tgt.Some? && tgt.None?) || (r.cls.Some? && cls.None?) then
        None
      else if r.perm.None? then
        Some(Operands(src, tgt, cls, None))
      else if cls.None? then
        None
      else
        var perm := FindPerm(cls.value, r.perm.value);
        if perm.None? then None else Some(Operands(src, tgt, cls, perm))
    }

    /** The entries a rule by name touches. */
    ghost function Touches(r: RuleNames, effect: Effect, invert: bool): iset<AvKey> {
      match Resolve(r)
      case Some(o) => Selected(o.src, o.tgt, o.cls, effect, invert)
      case None => iset{}
    }

    function RuleMask(r: RuleNames): Av {
      match Resolve(r)
      case Some(o) => Mask(o.perm)
      case None => {}
    }

    ghost function TouchedBy(e: RuleEdit): (sel: iset<AvKey>)
      ensures forall k :: k in sel ==> k.effect == e.op.Effect()
    {
      Touches(e.names, e.op.Effect(), e.op.Inverts())
    }

    // ---------- sequences of rules ----------

    /** What one rule makes of one table entry. */
    ghost function LookEdit(e: RuleEdit, k: AvKey, cur: Option<Av>): Option<Av> {
      if k in TouchedBy(e) then Edit(cur, k.effect, e.op.Inverts(), RuleMask(e.names)) else cur
    }

    ghost function LookAfter(edits: seq<RuleEdit>, k: AvKey, cur: Option<Av>): Option<Av> {
      if edits == [] then cur
      else LookEdit(edits[|edits| - 1], k, LookAfter(edits[..|edits| - 1], k, cur))
    }

    /** The set reading of one allow, deny or auditallow on one access vector. */
    ghost function VecEdit(e: RuleEdit, k: AvKey, v: Av): Av {
      if k !in TouchedBy(e) then v
      else if e.op.Inverts() then v - RuleMask(e.names)
      else v + RuleMask(e.names)
    }

    ghost function VecAfter(edits: seq<RuleEdit>, k: AvKey, v: Av): Av {
      if edits == [] then v
      else VecEdit(edits[|edits| - 1], k, VecAfter(edits[..|edits| - 1], k, v))
    }

    /** The set readings are what the edits do to access vectors; only dontaudit, which leaves absent entries
      * absent, has none. */
    lemma {:induction false} LookIsVec(edits: seq<RuleEdit>, k: AvKey, cur: Option<Av>)
      requires k.effect != AuditDeny || forall e :: e in edits ==> e.op != OpDontAudit
      ensures LookAfter(edits, k, cur).GetOr(Neutral(k.effect)) == VecAfter(edits, k, cur.GetOr(Neutral(k.effect)))
    {
      if edits != [] {
        var n := |edits| - 1;
        assert edits[n] in edits;
        LookIsVec(edits[..n], k, cur);
      }
    }

    /** The bits that the rules in order leave set, and those they may have cleared. */
    ghost function TurnedOn(edits: seq<RuleEdit>, k: AvKey): Av {
      if edits == [] then {}
      else
        var n := |edits| - 1;
        VecEdit(edits[n], k, TurnedOn(edits[..n], k))
    }

    ghost function TurnedOff(edits: seq<RuleEdit>, k: AvKey): Av {
      if edits == [] then {}
      else
        var n := |edits| - 1;
        TurnedOff(edits[..n], k)
        + if k in TouchedBy(edits[n]) && edits[n].op.Inverts() then RuleMask(edits[n].names) else {}
    }

    /** A sequence of rules does the same to every vector: it clears some bits, then sets some. */
    lemma {:induction false} VecIsOffOn(edits: seq<RuleEdit>, k: AvKey, v: Av)
      ensures VecAfter(edits, k, v) == v - TurnedOff(edits, k) + TurnedOn(edits, k)
    {
      if edits != [] {
        var n := |edits| - 1;
        VecIsOffOn(edits[..n], k, v);
      }
    }

    /** No touched entry is left at its neutral value. */
    lemma {:induction false} TouchedNotNeutral(edits: seq<RuleEdit>, k: AvKey, cur: Option<Av>, i: nat)
      requires i < |edits| && k in TouchedBy(edits[i])
      ensures LookAfter(edits, k, cur) != Some(Neutral(k.effect))
    {
      var n := |edits| - 1;
      if i < n {
        assert edits[..n][i] == edits[i];
        TouchedNotNeutral(edits[..n], k, cur, i);
      }
    }

    /** An omitted type means fewer entries for allow (attributes only) than for deny (all types). */
    lemma AllowTouchesWithinDeny(r: RuleNames)
      ensures TouchedBy(RuleEdit(OpAllow, r)) <= TouchedBy(RuleEdit(OpDeny, r))
    {
      forall k | k in TouchedBy(RuleEdit(OpAllow, r))
        ensures k in TouchedBy(RuleEdit(OpDeny, r))
      {
        var o := Resolve(r).value;
        assert TypeIn(o.src, |types|, true, k.source) && TypeIn(o.tgt, |types|, true, k.target);
      }
    }

    /** Denying a rule right after allowing it, wildcards or not, is the same as only denying it; so it
      * restores an entry exactly when the rule does not name the entry or none of the rule's bits
      * were there before. */
    lemma DenyUndoesAllow(r: RuleNames, k: AvKey, v: Av)
      ensures VecAfter([RuleEdit(OpAllow, r), RuleEdit(OpDeny, r)], k, v) == VecAfter([RuleEdit(OpDeny, r)], k, v)
      ensures VecAfter([RuleEdit(OpAllow, r), RuleEdit(OpDeny, r)], k, v) == v <==>
              k !in TouchedBy(RuleEdit(OpDeny, r)) || v !! RuleMask(r)
    {
      var allow, deny := RuleEdit(OpAllow, r), RuleEdit(OpDeny, r);
      AllowTouchesWithinDeny(r);
      assert [allow, deny][..1] == [allow];
      assert VecAfter([allow], k, v) == VecEdit(allow, k, VecAfter([], k, v));
      assert VecAfter([deny], k, v) == VecEdit(deny, k, VecAfter([], k, v));
      assert (v + RuleMask(r)) - RuleMask(r) == v - RuleMask(r);
      if v !! RuleMask(r) {
        assert v - RuleMask(r) == v;
      } else {
        var b :| b in v && b in RuleMask(r);
        assert b !in v - RuleMask(r);
      }
    }
  }

  /** For example, with one type and one class of one permission: allowing and then denying that permission takes
    * it away from an entry that had it all along. */
  lemma DenyTakesMore()
    ensures var sym := Symbols([TypeDatum("a", 1, false)],
                               [ClassDatum("file", 1, map["read" := 1], map[])], [Some("a")]);
            var r := RuleNames(Some("a"), Some("a"), Some("file"), Some("read"));
            sym.VecAfter([RuleEdit(OpAllow, r), RuleEdit(OpDeny, r)], AvKey(1, 1, 1, Allowed), {1}) == {}
  {
    var a := TypeDatum("a", 1, false);
    var file := ClassDatum("file", 1, map["read" := 1], map[]);
    var sym := Symbols([a], [file], [Some("a")]);
    var r := RuleNames(Some("a"), Some("a"), Some("file"), Some("read"));
    var k := AvKey(1, 1, 1, Allowed);
    assert sym.Resolve(r) == Some(Operands(Some(a), Some(a), Some(file), Some(1)));
    assert k in sym.TouchedBy(RuleEdit(OpDeny, r));
    sym.DenyUndoesAllow(r, k, {1});
    assert sym.VecAfter([RuleEdit(OpDeny, r)], k, {1}) == sym.VecEdit(RuleEdit(OpDeny, r), k, sym.VecAfter([], k, {1}));
  }
}
