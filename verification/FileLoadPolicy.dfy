/** Granting a process the file permissions it lacks, and taking exactly those back. */
module FileLoadPolicy {
  import opened Basics
  import opened AvTab
  import opened PolicyDb
  import opened RuleSets
  import opened RuleLaws

  const FILE_LOAD_PERMS := ["read", "open", "getattr", "map", "execute"]
  const TMPFS_HOOK_PERMS := ["read", "write", "open", "getattr", "map", "execute"]

  /** struct tamisu_file_load_policy: the bits one grant added, on up to two keys. */
  datatype Grant = Grant(src: U16, tgt: U16, tmpfs: U16, cls: U16, added: Av, tmpfsAdded: Av)
  {
    predicate HasAdditions() {
      added != {} || tmpfsAdded != {}
    }

    /** The bits this grant added to key k. The two keys are the same when the target is tmpfs. */
    ghost function Bits(k: AvKey): Av {
      (if k == AvKey(src, tgt, cls, Allowed) then added else {}) +
      (if k == AvKey(src, tmpfs, cls, Allowed) then tmpfsAdded else {})
    }
  }

  const NO_GRANT := Grant(0, 0, 0, 0, {}, {})

  /** The bits of the named permissions that the class has. */
  ghost function PermBits(cls: ClassDatum, perms: seq<string>): Av {
    set i | 0 <= i < |perms| && FindPerm(cls, perms[i]).Some? :: FindPerm(cls, perms[i]).value
  }

  /** tamisu_file_perm_mask */
  function FilePermMask(cls: ClassDatum, name: string): Av {
    match FindPerm(cls, name)
    case Some(v) => {v}
    case None => {}
  }

  /** tamisu_required_av */
  method RequiredAv(cls: ClassDatum, perms: seq<string>) returns (av: Av)
    ensures av == PermBits(cls, perms)
  {
    av := {};
    for i := 0 to |perms|
      invariant av == PermBits(cls, perms[..i])
    {
      av := av + FilePermMask(cls, perms[i]);
      PermBitsMore(cls, perms, i);
    }
    assert perms[..|perms|] == perms;
  }

  lemma PermBitsMore(cls: ClassDatum, perms: seq<string>, i: nat)
    requires i < |perms|
    ensures PermBits(cls, perms[..i + 1]) == PermBits(cls, perms[..i]) + FilePermMask(cls, perms[i])
  {
    var a, b := perms[..i], perms[..i + 1];
    assert forall j :: 0 <= j < i ==> a[j] == b[j];
    assert b[i] == perms[i];
  }

  /** tamisu_direct_allowed_av */
  method DirectAllowedAv(db: PolicyDb, src: U16, tgt: U16, cls: U16) returns (av: Av)
    requires db.Valid()
    ensures av == db.Vec(AvKey(src, tgt, cls, Allowed))
  {
    var k := AvKey(src, tgt, cls, Allowed);
    var pos := db.SearchNode(k);
    av := if pos.Some? then db.htable[db.hash(k) % db.htable.Length][pos.value].data else {};
  }

  /** tamisu_type_name_by_value */
  function TypeNameByValue(sym: Symbols, v: U16): Option<string> {
    if v == 0 || v > |sym.typeNames| then None else sym.typeNames[v - 1]
  }

  /** tamisu_type_value_by_name; 0 when there is no such type. */
  function TypeValueByName(sym: Symbols, name: string): U16 {
    match sym.FindType(name)
    case Some(d) => d.value
    case None => 0
  }

  /** A type's name in the name table is found in the type table with the same value, and the value of every type
    * that is found, an alias included, has a name, as policy loading builds the tables. */
  ghost predicate TablesInverse(sym: Symbols) {
    && (forall v :: TypeNameByValue(sym, v).Some? ==>
          sym.FindType(TypeNameByValue(sym, v).value).Some?
          && sym.FindType(TypeNameByValue(sym, v).value).value.value == v)
    && (forall name :: sym.FindType(name).Some? ==>
          TypeNameByValue(sym, sym.FindType(name).value.value).Some?)
  }

  function FileRule(src: string, tgt: string, perm: string): RuleNames {
    RuleNames(Some(src), Some(tgt), Some("file"), Some(perm))
  }

  /** A fully named rule touches exactly one entry. */
  lemma FileRuleTouches(sym: Symbols, src: string, tgt: string, perm: string, invert: bool)
    requires sym.FindType(src).Some? && sym.FindType(tgt).Some? && sym.FindClass("file").Some?
    requires FindPerm(sym.FindClass("file").value, perm).Some?
    ensures sym.Resolve(FileRule(src, tgt, perm)).Some?
    ensures sym.RuleMask(FileRule(src, tgt, perm)) == FilePermMask(sym.FindClass("file").value, perm)
    ensures sym.Touches(FileRule(src, tgt, perm), Allowed, invert) ==
            iset{AvKey(sym.FindType(src).value.value, sym.FindType(tgt).value.value,
                       sym.FindClass("file").value.value, Allowed)}
  {
  }

  /** Both types of a file rule exist. */
  predicate Named(sym: Symbols, src: string, tgt: string) {
    sym.FindType(src).Some? && sym.FindType(tgt).Some?
  }

  /** A file rule with an unknown type touches nothing. */
  lemma UnnamedTouchesNothing(sym: Symbols, src: string, tgt: string, perm: string, invert: bool)
    requires !Named(sym, src, tgt)
    ensures sym.Resolve(FileRule(src, tgt, perm)).None?
    ensures sym.Touches(FileRule(src, tgt, perm), Allowed, invert) == iset{}
  {
  }

  /** The vector of k after bits of the file class were set or cleared between two types, if these exist. */
  ghost function FileVec(sym: Symbols, src: string, tgt: string, bits: Av, allow: bool, k: AvKey, v: Av): Av
    requires sym.FindClass("file").Some?
  {
    if !Named(sym, src, tgt)
       || k != AvKey(sym.FindType(src).value.value, sym.FindType(tgt).value.value,
                     sym.FindClass("file").value.value, Allowed) then v
    else if allow then v + bits
    else v - bits
  }

  /** One permission of a file rule. */
  method ApplyFilePerm(db: PolicyDb, src: string, tgt: string, perm: string, allow: bool) returns (done: bool)
    requires db.Valid() && db.sym.FindClass("file").Some?
    requires FindPerm(db.sym.FindClass("file").value, perm).Some?
    modifies db`nel, db`len, db.htable
    ensures db.Valid() && (done <==> Named(db.sym, src, tgt))
    ensures forall k :: db.Vec(k) == FileVec(db.sym, src, tgt, FilePermMask(db.sym.FindClass("file").value, perm),
                                             allow, k, old(db.Vec(k)))
  {
    if Named(db.sym, src, tgt) {
      FileRuleTouches(db.sym, src, tgt, perm, !allow);
    } else {
      UnnamedTouchesNothing(db.sym, src, tgt, perm, !allow);
    }
    if allow {
      done := db.Allow(FileRule(src, tgt, perm));
    } else {
      done := db.Deny(FileRule(src, tgt, perm));
    }
  }

  /** tamisu_apply_file_av: set or clear, one permission at a time, those bits of av that perms name. */
  method ApplyFileAv(db: PolicyDb, src: string, tgt: string, av: Av, allow: bool, perms: seq<string>)
    returns (ok: bool)
    requires db.Valid()
    modifies db`nel, db`len, db.htable
    ensures db.Valid()
    ensures match db.sym.FindClass("file")
            case None => !ok && forall k :: db.Vec(k) == old(db.Vec(k))
            case Some(c) =>
              && (ok <==> Named(db.sym, src, tgt) || av * PermBits(c, perms) == {})
              && forall k :: db.Vec(k) == FileVec(db.sym, src, tgt, av * PermBits(c, perms), allow, k, old(db.Vec(k)))
  {
    hide PermBits;
    var cls := db.sym.FindClass("file");
    if cls.None? {
      return false;
    }
    ok := true;
    ghost var bits: Av := {};
    NoPermBits(cls.value);
    for i := 0 to |perms|
      invariant db.Valid() && bits == av * PermBits(cls.value, perms[..i])
      invariant ok <==> Named(db.sym, src, tgt) || bits == {}
      invariant forall k :: db.Vec(k) == FileVec(db.sym, src, tgt, bits, allow, k, old(db.Vec(k)))
    {
      var mask := FilePermMask(cls.value, perms[i]);
      PermBitsMore(cls.value, perms, i);
      if av * mask != {} {
        var done := ApplyFilePerm(db, src, tgt, perms[i], allow);
        ok := done && ok;
        bits := bits + mask;
      }
    }
    assert perms[..|perms|] == perms;
  }

  lemma NoPermBits(cls: ClassDatum)
    ensures PermBits(cls, []) == {}
  {
  }

  /** The file permissions a source type still lacks on its target and on tmpfs. */
  ghost function Missing(db: PolicyDb, src: U16, tgt: U16): Grant
    requires db.htable.Length > 0 && db.sym.FindClass("file").Some?
    reads db, db.htable
  {
    var c := db.sym.FindClass("file").value;
    var tmpfs := TypeValueByName(db.sym, "tmpfs");
    Grant(src, tgt, tmpfs, c.value,
          PermBits(c, FILE_LOAD_PERMS) - db.Vec(AvKey(src, tgt, c.value, Allowed)),
          if tmpfs == 0 then {} else PermBits(c, TMPFS_HOOK_PERMS) - db.Vec(AvKey(src, tmpfs, c.value, Allowed)))
  }

  /** A permission that loading a file takes: on the file, and on tmpfs if there is such a type. */
  ghost predicate Wanted(sym: Symbols, src: U16, tgt: U16, k: AvKey, v: PermValue) {
    && k.effect == Allowed && k.source == src && ClassIs(sym, "file", k.cls)
    && ((k.target == tgt && FilePerm(sym, v))
        || (k.target != 0 && TypeIs(sym, "tmpfs", k.target) && (FilePerm(sym, v) || PermIs(sym, "file", "write", v))))
  }

  ghost predicate FilePerm(sym: Symbols, v: PermValue) {
    || PermIs(sym, "file", "read", v) || PermIs(sym, "file", "open", v) || PermIs(sym, "file", "getattr", v)
    || PermIs(sym, "file", "map", v) || PermIs(sym, "file", "execute", v)
  }

  /** With what is missing, exactly the wanted permissions come to be there. */
  lemma MissingIsWanted(db: PolicyDb, src: U16, tgt: U16, k: AvKey, v: PermValue)
    requires db.Valid() && db.sym.FindClass("file").Some?
    ensures v in db.Vec(k) + Missing(db, src, tgt).Bits(k) <==> v in db.Vec(k) || Wanted(db.sym, src, tgt, k, v)
  {
    var c := db.sym.FindClass("file").value;
    ClassesAre(db.sym, "file");
    TypesAre(db.sym, "tmpfs");
    PermBitsAre(c, v);
    hide PermBits, ClassIs, TypeIs, PermIs, FindPerm, Symbols.FindClass, Symbols.FindType;
  }

  lemma PermBitsAre(c: ClassDatum, v: PermValue)
    ensures v in PermBits(c, FILE_LOAD_PERMS) <==>
            || FindPerm(c, "read") == Some(v) || FindPerm(c, "open") == Some(v) || FindPerm(c, "getattr") == Some(v)
            || FindPerm(c, "map") == Some(v) || FindPerm(c, "execute") == Some(v)
    ensures v in PermBits(c, TMPFS_HOOK_PERMS) <==> v in PermBits(c, FILE_LOAD_PERMS) || FindPerm(c, "write") == Some(v)
  {
    InPerms(c, FILE_LOAD_PERMS, v);
    InPerms(c, TMPFS_HOOK_PERMS, v);
    hide PermBits, FindPerm;
    var a, b := FILE_LOAD_PERMS, TMPFS_HOOK_PERMS;
    assert a[0] == "read" && a[1] == "open" && a[2] == "getattr" && a[3] == "map" && a[4] == "execute";
    assert b[0] == "read" && b[1] == "write" && b[2] == "open" && b[3] == "getattr" && b[4] == "map";
    assert b[5] == "execute";
  }

  lemma InPerms(c: ClassDatum, perms: seq<string>, v: PermValue)
    ensures v in PermBits(c, perms) <==> exists i :: 0 <= i < |perms| && FindPerm(c, perms[i]) == Some(v)
  {
  }

  lemma MissingIsNew(db: PolicyDb, src: U16, tgt: U16, k: AvKey)
    requires db.htable.Length > 0 && db.sym.FindClass("file").Some?
    ensures db.Vec(k) !! Missing(db, src, tgt).Bits(k)
  {
  }

  method ComputeMissing(db: PolicyDb, src: U16, tgt: U16) returns (g: Grant)
    requires db.Valid() && db.sym.FindClass("file").Some?
    ensures g == Missing(db, src, tgt)
  {
    var cls := db.sym.FindClass("file").value;
    var requiredAv := RequiredAv(cls, FILE_LOAD_PERMS);
    var directAv := DirectAllowedAv(db, src, tgt, cls.value);
    var addAv := requiredAv - directAv;

    var tmpfsType := TypeValueByName(db.sym, "tmpfs");
    var tmpfsAddAv: Av := {};
    if tmpfsType != 0 {
      var tmpfsRequired := RequiredAv(cls, TMPFS_HOOK_PERMS);
      var tmpfsDirect := DirectAllowedAv(db, src, tmpfsType, cls.value);
      tmpfsAddAv := tmpfsRequired - tmpfsDirect;
    }
    g := Grant(src, tgt, tmpfsType, cls.value, addAv, tmpfsAddAv);
  }

  /** The names refer to the types of the grant. */
  ghost predicate ResolvesTo(sym: Symbols, src: string, tgt: string, tmpfs: string, g: Grant) {
    && sym.FindType(src).Some? && sym.FindType(src).value.value == g.src
    && (g.added != {} ==> sym.FindType(tgt).Some? && sym.FindType(tgt).value.value == g.tgt)
    && (g.tmpfsAdded != {} ==> sym.FindType(tmpfs).Some? && sym.FindType(tmpfs).value.value == g.tmpfs)
  }

  /** What applying a record changes under some symbol tables: the bits it has in common with the permission lists,
    * in today's file class. */
  ghost function Effective(sym: Symbols, g: Grant): Grant
    requires sym.FindClass("file").Some?
  {
    var c := sym.FindClass("file").value;
    g.(cls := c.value, added := g.added * PermBits(c, FILE_LOAD_PERMS),
    tmpfsAdded := g.tmpfsAdded * PermBits(c, TMPFS_HOOK_PERMS))
  }

  /** Apply a grant to a policy copy, or take it away: both keys, one permission at a time. */
  method ApplyGrant(db: PolicyDb, src: string, tgt: string, tmpfs: string, g: Grant, allow: bool) returns (ok: bool)
    requires db.Valid() && ResolvesTo(db.sym, src, tgt, tmpfs, g) && g.HasAdditions()
    modifies db`nel, db`len, db.htable
    ensures db.Valid()
    ensures ok <==> db.sym.FindClass("file").Some?
    ensures ok ==> forall k :: db.Vec(k) == if allow then old(db.Vec(k)) + Effective(db.sym, g).Bits(k)
                                           else old(db.Vec(k)) - Effective(db.sym, g).Bits(k)
  {
    hide PermBits;
    if g.added != {} {
      ok := ApplyFileAv(db, src, tgt, g.added, allow, FILE_LOAD_PERMS);
      if !ok {
        return false;
      }
    }
    if g.tmpfsAdded != {} {
      ok := ApplyFileAv(db, src, tmpfs, g.tmpfsAdded, allow, TMPFS_HOOK_PERMS);
      if !ok {
        return false;
      }
    }
    return true;
  }

  /** The types a record refers to have names. */
  ghost predicate NamesKnown(sym: Symbols, st: Grant) {
    && TypeNameByValue(sym, st.src).Some?
    && (st.added != {} ==> TypeNameByValue(sym, st.tgt).Some?)
    && (st.tmpfsAdded != {} ==> TypeNameByValue(sym, st.tmpfs).Some?)
  }

  /** st is a record that AllowCurrent may have filled under these symbol tables. */
  ghost predicate GrantOf(sym: Symbols, st: Grant) {
    NamesKnown(sym, st) && sym.FindClass("file").Some? && Effective(sym, st) == st
  }

  /** The part of struct selinux_state used here: the published policy. Rules and grants never change its symbol
    * tables. */
  class SelinuxState {
    var policy: PolicyDb
    ghost const sym: Symbols

    constructor (policy: PolicyDb)
      requires policy.Valid() && TablesInverse(policy.sym)
      ensures Valid() && this.policy == policy
    {
      this.policy := policy;
      this.sym := policy.sym;
    }

    ghost predicate Valid()
      reads this, policy, policy.htable
    {
      policy.Valid() && policy.sym == sym && TablesInverse(sym)
    }

    /** Why a grant is refused: a context without a type, no file class, or a type without a name. */
    ghost predicate Unresolvable(sctx: Option<U16>, tctx: Option<U16>)
      reads this
    {
      || sctx.None? || tctx.None? || policy.sym.FindClass("file").None?
      || TypeNameByValue(policy.sym, sctx.value).None? || TypeNameByValue(policy.sym, tctx.value).None?
    }

    /** tamisu_file_load_policy_allow_current, from the caller's and the file's security contexts. file is whether
      * there are a file and a place for the record, loaded whether there is a policy, labelled whether the file has
      * its security label and both security ids are known; dupOk is whether duplicating the policy succeeds. */
    method AllowCurrent(file: bool, loaded: bool, labelled: bool, sctx: Option<U16>, tctx: Option<U16>, dupOk: bool)
      returns (ret: int, st: Grant)
      requires Valid()
      modifies `policy
      ensures Valid()
      ensures ret == AllowResult(file, loaded, labelled, old(Unresolvable(sctx, tctx)), dupOk,
                                 !old(Unresolvable(sctx, tctx)) &&
                                 old(Missing(policy, sctx.value, tctx.value)).HasAdditions())
      ensures ret == 0 ==>
                st == if old(Missing(policy, sctx.value, tctx.value)).HasAdditions()
                then old(Missing(policy, sctx.value, tctx.value)) else NO_GRANT
      ensures ret == 0 ==>
                forall k :: old(policy.Vec(k)) !! st.Bits(k) && policy.Vec(k) == old(policy.Vec(k)) + st.Bits(k)
      ensures ret != 0 ==> policy == old(policy) && st == NO_GRANT
      ensures st.HasAdditions() ==> GrantOf(policy.sym, st)
      ensures ret == 0 ==> forall k, v :: v in policy.Vec(k) <==>
                                          v in old(policy.Vec(k)) || Wanted(policy.sym, sctx.value, tctx.value, k, v)
    {
      hide GrantOf, NamesKnown, Missing, ResolvesTo, Effective, TablesInverse;
      st := NO_GRANT;
      if !file {
        return -EINVAL, NO_GRANT;
      }
      if !loaded {
        return -ENOENT, NO_GRANT;
      }
      if !labelled {
        return -EINVAL, NO_GRANT;
      }
      var old_pol := policy;
      if sctx.None? || tctx.None? {
        return -ENOENT, NO_GRANT;
      }
      var cls := old_pol.sym.FindClass("file");
      if cls.None? {
        return -ENOENT, NO_GRANT;
      }
      var srcName := TypeNameByValue(old_pol.sym, sctx.value);
      var tgtName := TypeNameByValue(old_pol.sym, tctx.value);
      if srcName.None? || tgtName.None? {
        return -ENOENT, NO_GRANT;
      }
      var g := ComputeMissing(old_pol, sctx.value, tctx.value);
      forall k, v
        ensures v in old_pol.Vec(k) + g.Bits(k) <==>
                v in old_pol.Vec(k) || Wanted(old_pol.sym, sctx.value, tctx.value, k, v)
      {
        MissingIsWanted(old_pol, sctx.value, tctx.value, k, v);
      }
      hide Wanted;
      if !g.HasAdditions() {
        assert forall k :: NO_GRANT.Bits(k) == {} && old(policy.Vec(k)) + {} == old(policy.Vec(k));
        return 0, NO_GRANT;
      }
      if !dupOk {
        return -ENOMEM, NO_GRANT;
      }
      var pol := new PolicyDb.Duplicate(old_pol);
      MissingResolves(old_pol, sctx.value, tctx.value);
      var ok := ApplyGrant(pol, srcName.value, tgtName.value, "tmpfs", g, true);
      if !ok {
        return -EINVAL, NO_GRANT;
      }
      st := g;
      policy := pol;
      ret := 0;
    }

    /** tamisu_file_load_policy_restore, of any record: also one that was not made under the current symbol tables,
      * of which it takes away what those still name. */
    method Restore(st: Grant, loaded: bool, dupOk: bool) returns (ret: int)
      requires Valid()
      modifies `policy
      ensures Valid()
      ensures ret == RestoreResult(old(policy).sym, st, loaded, dupOk)
      ensures ret == 0 && st.HasAdditions() ==>
                forall k :: policy.Vec(k) == old(policy.Vec(k)) - Effective(policy.sym, st).Bits(k)
      ensures ret != 0 || !st.HasAdditions() ==> policy == old(policy)
    {
      hide Effective;
      if !st.HasAdditions() {
        return 0;
      }
      if !loaded {
        return -ENOENT;
      }
      var old_pol := policy;
      var srcName := TypeNameByValue(old_pol.sym, st.src);
      var tgtName: Option<string> := None;
      var tmpfsName: Option<string> := None;
      if st.added != {} {
        tgtName := TypeNameByValue(old_pol.sym, st.tgt);
      }
      if st.tmpfsAdded != {} {
        tmpfsName := TypeNameByValue(old_pol.sym, st.tmpfs);
      }
      if srcName.None? || (st.added != {} && tgtName.None?) || (st.tmpfsAdded != {} && tmpfsName.None?) {
        return -ENOENT;
      }
      if !dupOk {
        return -ENOMEM;
      }
      var pol := new PolicyDb.Duplicate(old_pol);
      var ok := ApplyGrant(pol, srcName.value, tgtName.GetOr(""), tmpfsName.GetOr(""), st, false);
      if !ok {
        return -EINVAL;
      }
      policy := pol;
      ret := 0;
    }
  }

  /** The same by the numbers of the errors: no file, label or id; no policy, or a name or type that is missing; no
    * memory. */
  lemma AllowErrors(file: bool, loaded: bool, labelled: bool, unresolvable: bool, dupOk: bool, missing: bool)
    ensures var ret := AllowResult(file, loaded, labelled, unresolvable, dupOk, missing);
            && (ret == -22 <==> !file || (loaded && !labelled))
            && (ret == -2 <==> file && (!loaded || (labelled && unresolvable)))
            && (ret == -12 <==> file && loaded && labelled && !unresolvable && missing && !dupOk)
            && (ret == 0 <==> file && loaded && labelled && !unresolvable && (missing ==> dupOk))
  {
  }

  function AllowResult(file: bool, loaded: bool, labelled: bool, unresolvable: bool, dupOk: bool, missing: bool): int {
    if !file then -EINVAL
    else if !loaded then -ENOENT
    else if !labelled then -EINVAL
    else if unresolvable then -ENOENT
    else if missing && !dupOk then -ENOMEM
    else 0
  }

  ghost function RestoreResult(sym: Symbols, st: Grant, loaded: bool, dupOk: bool): int {
    if !st.HasAdditions() then 0
    else if !loaded then -ENOENT
    else if !NamesKnown(sym, st) then -ENOENT
    else if !dupOk then -ENOMEM
    else if sym.FindClass("file").None? then -EINVAL
    else 0
  }

  /** What is missing is disjoint from what is there, and its names and bits resolve. */
  lemma MissingResolves(db: PolicyDb, src: U16, tgt: U16)
    requires db.Valid() && TablesInverse(db.sym) && db.sym.FindClass("file").Some?
    requires TypeNameByValue(db.sym, src).Some? && TypeNameByValue(db.sym, tgt).Some?
    ensures var g := Missing(db, src, tgt);
            && GrantOf(db.sym, g) && Effective(db.sym, g) == g
            && ResolvesTo(db.sym, TypeNameByValue(db.sym, src).value, TypeNameByValue(db.sym, tgt).value, "tmpfs", g)
            && forall k :: db.Vec(k) !! g.Bits(k)
  {
    var g := Missing(db, src, tgt);
    var c := db.sym.FindClass("file").value;
    assert g.added * PermBits(c, FILE_LOAD_PERMS) == g.added;
    assert g.tmpfsAdded * PermBits(c, TMPFS_HOOK_PERMS) == g.tmpfsAdded;
    forall k {
      MissingIsNew(db, src, tgt, k);
    }
  }
}
