/** What a rule says, read off the rows of the symbol tables: which entries it names and which bits, without the
  * machinery that expands it. */
module RuleLaws {
  import opened Basics
  import opened AvTab
  import opened RuleSets

  /** The first type of that name has value v. */
  ghost predicate TypeIs(sym: Symbols, name: string, v: U16) {
    exists i :: 0 <= i < |sym.types| && sym.types[i].name == name && sym.types[i].value == v
                && forall j :: 0 <= j < i ==> sym.types[j].name != name
  }

  /** The first class of that name has value v. */
  ghost predicate ClassIs(sym: Symbols, name: string, v: U16) {
    exists i :: 0 <= i < |sym.classes| && sym.classes[i].name == name && sym.classes[i].value == v
                && forall j :: 0 <= j < i ==> sym.classes[j].name != name
  }

  /** The first class of that name has permission p under that name, its own or a common one. */
  ghost predicate PermIs(sym: Symbols, cls: string, perm: string, p: PermValue) {
    exists i :: 0 <= i < |sym.classes| && sym.classes[i].name == cls
                && (forall j :: 0 <= j < i ==> sym.classes[j].name != cls)
                && if perm in sym.classes[i].permissions then sym.classes[i].permissions[perm] == p
                   else perm in sym.classes[i].common && sym.classes[i].common[perm] == p
  }

  /** Every name in the rule means something; a permission needs a class. */
  ghost predicate Known(sym: Symbols, r: RuleNames) {
    && (r.src.Some? ==> exists v: U16 :: TypeIs(sym, r.src.value, v))
    && (r.tgt.Some? ==> exists v: U16 :: TypeIs(sym, r.tgt.value, v))
    && (r.cls.Some? ==> exists v: U16 :: ClassIs(sym, r.cls.value, v))
    && (r.perm.Some? ==> r.cls.Some? && exists p: PermValue :: PermIs(sym, r.cls.value, r.perm.value, p))
  }

  /** A type operand covers value v: by name, or, omitted, because some type has that value. */
  ghost predicate Covers(sym: Symbols, name: Option<string>, attributesOnly: bool, v: U16) {
    if name.Some? then TypeIs(sym, name.value, v)
    else exists i :: 0 <= i < |sym.types| && sym.types[i].value == v && (attributesOnly ==> sym.types[i].attribute)
  }

  ghost predicate CoversClass(sym: Symbols, name: Option<string>, v: U16) {
    if name.Some? then ClassIs(sym, name.value, v)
    else exists i :: 0 <= i < |sym.classes| && sym.classes[i].value == v
  }

  /** The rule names entry k. */
  ghost predicate Names(sym: Symbols, r: RuleNames, attributesOnly: bool, k: AvKey) {
    && Known(sym, r) && Covers(sym, r.src, attributesOnly, k.source) && Covers(sym, r.tgt, attributesOnly, k.target)
    && CoversClass(sym, r.cls, k.cls)
  }

  /** The bits it names: its permission's, or all 32. */
  ghost function Bits(sym: Symbols, r: RuleNames): Av {
    set p: PermValue | 1 <= p <= 32 && (r.perm.Some? ==> r.cls.Some? && PermIs(sym, r.cls.value, r.perm.value, p))
  }

  // ---------- the symbol tables ----------

  lemma {:induction false} FindTypeIs(sym: Symbols, name: string, i: nat)
    requires i <= |sym.types| && forall j :: 0 <= j < i ==> sym.types[j].name != name
    ensures forall v: U16 :: TypeIs(sym, name, v) <==>
                        sym.FindTypeFrom(name, i).Some? && sym.FindTypeFrom(name, i).value.value == v
    decreases |sym.types| - i
  {
    if i < |sym.types| && sym.types[i].name != name {
      FindTypeIs(sym, name, i + 1);
    }
  }

  lemma {:induction false} FindClassIs(sym: Symbols, name: string, i: nat)
    requires i <= |sym.classes| && forall j :: 0 <= j < i ==> sym.classes[j].name != name
    ensures forall v: U16 :: ClassIs(sym, name, v) <==>
                        sym.FindClassFrom(name, i).Some? && sym.FindClassFrom(name, i).value.value == v
    ensures forall perm: string, p: PermValue :: PermIs(sym, name, perm, p) <==>
                              sym.FindClassFrom(name, i).Some?
                              && FindPerm(sym.FindClassFrom(name, i).value, perm) == Some(p)
    decreases |sym.classes| - i
  {
    if i < |sym.classes| && sym.classes[i].name != name {
      FindClassIs(sym, name, i + 1);
    }
  }

  lemma TypesAre(sym: Symbols, name: string)
    ensures forall v: U16 :: TypeIs(sym, name, v) <==> sym.FindType(name).Some? && sym.FindType(name).value.value == v
  {
    FindTypeIs(sym, name, 0);
  }

  lemma ClassesAre(sym: Symbols, name: string)
    ensures forall v: U16 :: ClassIs(sym, name, v) <==>
                             sym.FindClass(name).Some? && sym.FindClass(name).value.value == v
    ensures forall perm: string, p: PermValue :: PermIs(sym, name, perm, p) <==>
                              sym.FindClass(name).Some? && FindPerm(sym.FindClass(name).value, perm) == Some(p)
  {
    FindClassIs(sym, name, 0);
  }

  // ---------- rules ----------

  lemma NamesAre(sym: Symbols, r: RuleNames)
    ensures r.src.Some? ==> forall v: U16 ::
              TypeIs(sym, r.src.value, v) <==>
              sym.FindType(r.src.value).Some? && sym.FindType(r.src.value).value.value == v
    ensures r.tgt.Some? ==> forall v: U16 ::
              TypeIs(sym, r.tgt.value, v) <==>
              sym.FindType(r.tgt.value).Some? && sym.FindType(r.tgt.value).value.value == v
    ensures r.cls.Some? ==> forall v: U16 ::
              ClassIs(sym, r.cls.value, v) <==>
              sym.FindClass(r.cls.value).Some? && sym.FindClass(r.cls.value).value.value == v
    ensures r.cls.Some? ==> forall perm: string, p: PermValue ::
              PermIs(sym, r.cls.value, perm, p) <==>
              sym.FindClass(r.cls.value).Some? && FindPerm(sym.FindClass(r.cls.value).value, perm) == Some(p)
  {
    hide *;
    if r.src.Some? {
      TypesAre(sym, r.src.value);
    }
    if r.tgt.Some? {
      TypesAre(sym, r.tgt.value);
    }
    if r.cls.Some? {
      ClassesAre(sym, r.cls.value);
    }
  }

  /** A rule is accepted exactly when all its names mean something. */
  lemma ResolveIffKnown(sym: Symbols, r: RuleNames)
    ensures sym.Resolve(r).Some? <==> Known(sym, r)
  {
    NamesAre(sym, r);
    hide TypeIs, ClassIs, PermIs, FindPerm, Symbols.FindType, Symbols.FindClass;
    if sym.Resolve(r).Some? {
      assert r.src.Some? ==> TypeIs(sym, r.src.value, sym.FindType(r.src.value).value.value);
      assert r.tgt.Some? ==> TypeIs(sym, r.tgt.value, sym.FindType(r.tgt.value).value.value);
      assert r.cls.Some? ==> ClassIs(sym, r.cls.value, sym.FindClass(r.cls.value).value.value);
      assert r.perm.Some? ==> PermIs(sym, r.cls.value, r.perm.value,
                                     FindPerm(sym.FindClass(r.cls.value).value, r.perm.value).value);
    }
  }

  /** The bits that a rule edits. */
  lemma RuleMaskIsBits(sym: Symbols, r: RuleNames)
    requires Known(sym, r)
    ensures sym.RuleMask(r) == Bits(sym, r) != {}
  {
    ResolveIffKnown(sym, r);
    NamesAre(sym, r);
    hide TypeIs, ClassIs, PermIs, FindPerm, Symbols.FindType, Symbols.FindClass, Known;
    var b: PermValue := 1;
    assert r.perm.None? ==> b in Bits(sym, r);
  }

  /** An omitted type stands for every type when bits of allow or auditallow are taken away, and for the attributes
    * only when they are given; with auditdeny it is the other way round. An omitted class stands for every class. */
  lemma TouchesIffNames(sym: Symbols, r: RuleNames, effect: Effect, invert: bool, k: AvKey)
    ensures k in sym.Touches(r, effect, invert) <==>
            k.effect == effect && Names(sym, r, if effect == AuditDeny then invert else !invert, k)
  {
    ResolveIffKnown(sym, r);
    NamesAre(sym, r);
    hide TypeIs, ClassIs, PermIs, FindPerm, Symbols.FindType, Symbols.FindClass, Known;
  }

  // ---------- what the operations make of a node ----------

  /** allow and auditallow: the bits are added, to a new node if there is none. */
  ghost function Given(cur: Option<Av>, bits: Av): Option<Av> {
    match cur
    case None => Some(bits)
    case Some(v) => Some(v + bits)
  }

  /** deny: the bits are taken, and a node that is left empty is dropped. */
  ghost function Taken(cur: Option<Av>, bits: Av): Option<Av> {
    match cur
    case None => None
    case Some(v) => if v <= bits then None else Some(v - bits)
  }

  /** dontaudit: the bits are taken from a node that exists. */
  ghost function Silenced(cur: Option<Av>, bits: Av): Option<Av> {
    match cur
    case None => None
    case Some(v) => Some(v - bits)
  }

  lemma EditIs(cur: Option<Av>, bits: Av)
    requires bits != {} && bits <= ALL_BITS
    ensures Edit(cur, Allowed, false, bits) == Edit(cur, AuditAllow, false, bits) == Given(cur, bits)
    ensures Edit(cur, Allowed, true, bits) == Taken(cur, bits)
    ensures Edit(cur, AuditDeny, true, bits) == Silenced(cur, bits)
  {
    var b :| b in bits;
    assert {} + bits == bits;
    if cur.Some? {
      assert b in cur.value + bits && b in ALL_BITS;
      assert b !in cur.value - bits;
      if cur.value <= bits {
        assert cur.value - bits == {};
      } else {
        var x :| x in cur.value && x !in bits;
        assert x in cur.value - bits;
      }
    }
  }
}
