/** Applying a policy batch: the kernel's batch handler on a real policy object, and what a live patch does end to
  * end. */
module SepolicyApply {
  import opened Basics
  import opened AvTab
  import opened RuleSets
  import opened RuleLaws
  import opened PolicyDb
  import opened SepolicyWire
  import opened SepolicyBatch

  const MAX_BATCH_SIZE := 8 * 1024 * 1024

  const SUBCMD_ALLOW := 1
  const SUBCMD_DENY := 2
  const SUBCMD_AUDITALLOW := 3
  const SUBCMD_DONTAUDIT := 4

  // ---------- rule commands ----------

  /** A C string as a name. */
  function TextOf(b: Bytes): string {
    seq(|b|, i requires 0 <= i < |b| => b[i] as char)
  }

  /** ALL is an omitted operand. */
  function NameOf(a: Arg): Option<string> {
    match a
    case ALL => None
    case Str(s) => Some(TextOf(s))
  }

  function OpOf(subcmd: U32): Option<RuleOp> {
    if subcmd == SUBCMD_ALLOW then Some(OpAllow)
    else if subcmd == SUBCMD_DENY then Some(OpDeny)
    else if subcmd == SUBCMD_AUDITALLOW then Some(OpAuditAllow)
    else if subcmd == SUBCMD_DONTAUDIT then Some(OpDontAudit)
    else None
  }

  predicate IsRule(c: Command) {
    c.cmd == CMD_NORMAL_PERM && |c.args| == 4
  }

  /** The rule a command states; None for an unknown subcommand. */
  function RuleOf(c: Command): Option<RuleEdit>
    requires IsRule(c)
  {
    match OpOf(c.subcmd)
    case None => None
    case Some(op) =>
      Some(RuleEdit(op, RuleNames(NameOf(c.args[0]), NameOf(c.args[1]), NameOf(c.args[2]), NameOf(c.args[3]))))
  }

  /** The command states a rule whose names all mean something. */
  predicate Resolves(sym: Symbols, c: Command)
    requires IsRule(c)
  {
    RuleOf(c).Some? && sym.Resolve(RuleOf(c).value.names).Some?
  }

  /** The rules stated by a list of commands, in order. */
  ghost function RulesOf(cs: seq<Command>): seq<RuleEdit>
    requires forall c :: c in cs ==> IsRule(c)
  {
    if cs == [] then []
    else
      var last := RuleOf(cs[|cs| - 1]);
      RulesOf(cs[..|cs| - 1]) + if last.Some? then [last.value] else []
  }

  // ---------- what a command does ----------

  /** The effect of the commands that are not rules on what a policy holds, and whether they succeed. */
  type Other = (Command, Contents) -> (Contents, bool)

  ghost predicate KeepsTables(other: Other) {
    forall c: Command, p: Contents :: p.Wf() ==> other(c, p).0.Wf()
  }

  /** apply_one_sepolicy_cmd may turn p into q, with that success. */
  ghost predicate Applied(other: Other, p: Contents, c: Command, q: Contents, ok: bool) {
    && p.Wf() && q.Wf()
    && if !IsRule(c) then (q, ok) == other(c, p)
       else match RuleOf(c)
            case None => !ok && q == p
            case Some(e) => Ruled(p, e, q, ok)
  }

  /** Applying the commands in order may turn p into q, with those successes. */
  ghost predicate Reaches(other: Other, p: Contents, cs: seq<Command>, oks: seq<bool>, q: Contents)
    decreases |cs|
  {
    |oks| == |cs| &&
    if cs == [] then q == p
    else
      var n := |cs| - 1;
      exists m: Contents :: Reaches(other, p, cs[..n], oks[..n], m) && Applied(other, m, cs[n], q, oks[n])
  }

  function Successes(oks: seq<bool>): nat {
    if oks == [] then 0 else Successes(oks[..|oks| - 1]) + if oks[|oks| - 1] then 1 else 0
  }

  lemma {:induction false} SuccessesAreAll(oks: seq<bool>)
    ensures Successes(oks) <= |oks|
    ensures Successes(oks) == |oks| <==> forall i :: 0 <= i < |oks| ==> oks[i]
  {
    if oks != [] {
      var n := |oks| - 1;
      SuccessesAreAll(oks[..n]);
      assert forall i :: 0 <= i < n ==> oks[..n][i] == oks[i];
    }
  }

  lemma ReachesMore(other: Other, p: Contents, cs: seq<Command>, oks: seq<bool>, m: Contents,
                    c: Command, ok: bool, q: Contents)
    requires Reaches(other, p, cs, oks, m) && Applied(other, m, c, q, ok)
    ensures Reaches(other, p, cs + [c], oks + [ok], q) && Successes(oks + [ok]) == Successes(oks) + if ok then 1 else 0
  {
    hide Applied;
    assert (cs + [c])[..|cs|] == cs && (oks + [ok])[..|cs|] == oks;
  }

  /** Rule commands, whatever nodes they meet on the way, do to every entry exactly what the rules say, in order, and
    * succeed exactly when their names resolve; the other tables and the rest of the policy stay. */
  lemma {:induction false} RulesReach(other: Other, p: Contents, cs: seq<Command>, oks: seq<bool>, q: Contents)
    requires p.Wf() && Reaches(other, p, cs, oks, q) && forall c :: c in cs ==> IsRule(c)
    ensures q.Wf() && q.sym == p.sym && q.LenOfRest() == p.LenOfRest()
    ensures forall k :: q.Lookup(k) == p.sym.LookAfter(RulesOf(cs), k, p.Lookup(k))
    ensures forall i :: 0 <= i < |cs| ==> (oks[i] <==> Resolves(p.sym, cs[i]))
    decreases |cs|
  {
    if cs != [] {
      var n := |cs| - 1;
      var m: Contents :| Reaches(other, p, cs[..n], oks[..n], m) && Applied(other, m, cs[n], q, oks[n]);
      RulesReach(other, p, cs[..n], oks[..n], m);
      RulesStep(other, p, cs, m, q, oks[n]);
      hide *;
      assert forall i :: 0 <= i < n ==> cs[..n][i] == cs[i] && oks[..n][i] == oks[i];
    }
  }

  lemma RulesStep(other: Other, p: Contents, cs: seq<Command>, m: Contents, q: Contents, ok: bool)
    requires p.Wf() && cs != [] && forall c :: c in cs ==> IsRule(c)
    requires var n := |cs| - 1;
             Applied(other, m, cs[n], q, ok) && m.sym == p.sym && m.LenOfRest() == p.LenOfRest() &&
             forall k :: m.Lookup(k) == p.sym.LookAfter(RulesOf(cs[..n]), k, p.Lookup(k))
    ensures q.Wf() && q.sym == p.sym && q.LenOfRest() == p.LenOfRest()
    ensures forall k :: q.Lookup(k) == p.sym.LookAfter(RulesOf(cs), k, p.Lookup(k))
    ensures var c := cs[|cs| - 1];
            IsRule(c) && (ok <==> Resolves(p.sym, c))
  {
    var n := |cs| - 1;
    var front, last := RulesOf(cs[..n]), RuleOf(cs[n]);
    if last.Some? {
      assert (front + [last.value])[..|front|] == front;
      assert RulesOf(cs) == front + [last.value];
    } else {
      assert RulesOf(cs) == front;
    }
  }

  // ---------- rule commands by their numbers ----------

  /** The operands of a rule command, in the order in which they are sent. */
  function NamesOf(c: Command): RuleNames
    requires |c.args| == 4
  {
    RuleNames(NameOf(c.args[0]), NameOf(c.args[1]), NameOf(c.args[2]), NameOf(c.args[3]))
  }

  /** What a rule with this subcommand number makes of one node. */
  ghost function NodeAfter(sym: Symbols, subcmd: U32, r: RuleNames, k: AvKey, cur: Option<Av>): Option<Av> {
    if subcmd == 1 && k.effect == Allowed && Names(sym, r, true, k) then Given(cur, Bits(sym, r))
    else if subcmd == 2 && k.effect == Allowed && Names(sym, r, false, k) then Taken(cur, Bits(sym, r))
    else if subcmd == 3 && k.effect == AuditAllow && Names(sym, r, true, k) then Given(cur, Bits(sym, r))
    else if subcmd == 4 && k.effect == AuditDeny && Names(sym, r, true, k) then Silenced(cur, Bits(sym, r))
    else cur
  }

  /** 1 allows, 2 denies, 3 is auditallow and 4 dontaudit; any other number fails and does nothing. */
  ghost predicate DoneByNumber(p: Contents, subcmd: U32, r: RuleNames, q: Contents, ok: bool)
    requires p.Wf() && q.Wf()
  {
    && (ok <==> 1 <= subcmd <= 4 && Known(p.sym, r))
    && forall k :: q.Lookup(k) == NodeAfter(p.sym, subcmd, r, k, p.Lookup(k))
  }

  lemma CommandByNumber(other: Other, p: Contents, c: Command, q: Contents, ok: bool)
    requires Applied(other, p, c, q, ok) && c.cmd == 1 && |c.args| == 4
    ensures DoneByNumber(p, c.subcmd, NamesOf(c), q, ok)
  {
    var r := NamesOf(c);
    ResolveIffKnown(p.sym, r);
    if RuleOf(c).Some? {
      var e := RuleOf(c).value;
      EditByNumber(p.sym, c.subcmd, e);
      assert forall k :: q.Lookup(k) == p.sym.LookEdit(e, k, p.Lookup(k));
    }
  }

  lemma EditByNumber(sym: Symbols, subcmd: U32, e: RuleEdit)
    requires OpOf(subcmd) == Some(e.op)
    ensures 1 <= subcmd <= 4
    ensures forall k, cur :: sym.LookEdit(e, k, cur) == NodeAfter(sym, subcmd, e.names, k, cur)
  {
    forall k, cur
      ensures sym.LookEdit(e, k, cur) == NodeAfter(sym, subcmd, e.names, k, cur)
    {
      TouchesIffNames(sym, e.names, e.op.Effect(), e.op.Inverts(), k);
      hide Names, Known, Bits, Given, Taken, Silenced, Symbols.Touches, Symbols.RuleMask, Edit;
      if k in sym.TouchedBy(e) {
        NamedIsKnown(sym, e.names, k);
        RuleMaskIsBits(sym, e.names);
        EditIs(cur, Bits(sym, e.names));
      }
    }
  }

  lemma NamedIsKnown(sym: Symbols, r: RuleNames, k: AvKey)
    ensures Names(sym, r, true, k) || Names(sym, r, false, k) ==> Known(sym, r)
    ensures Bits(sym, r) <= ALL_BITS
  {
  }

  /** The nodes after the rules of some statements, by their numbers and in order. */
  ghost function NodesAfter(sym: Symbols, sts: seq<AtomicStatement>, k: AvKey, cur: Option<Av>): Option<Av>
    requires forall i :: 0 <= i < |sts| ==> |sts[i].sepol| == 7
  {
    if sts == [] then cur
    else
      var n := |sts| - 1;
      NodeAfter(sym, sts[n].subcmd, StatementNames(sts[n]), k, NodesAfter(sym, sts[..n], k, cur))
  }

  /** The operands of a statement: source, target, class and permission. */
  function StatementNames(st: AtomicStatement): RuleNames
    requires |st.sepol| == 7
  {
    RuleNames(OperandOf(st.sepol[0]), OperandOf(st.sepol[1]), OperandOf(st.sepol[2]), OperandOf(st.sepol[3]))
  }

  lemma {:induction false} RulesByNumber(sym: Symbols, sts: seq<AtomicStatement>, k: AvKey, cur: Option<Av>)
    requires RuleStatements(sts) && forall i :: 0 <= i < |sts| ==> |sts[i].sepol| == 7
    ensures sym.LookAfter(StatementRules(sts), k, cur) == NodesAfter(sym, sts, k, cur)
  {
    if sts != [] {
      var n := |sts| - 1;
      assert StatementRules(sts)[..n] == StatementRules(sts[..n]);
      RulesByNumber(sym, sts[..n], k, cur);
      var e := StatementRules(sts)[n];
      EditByNumber(sym, sts[n].subcmd, e);
    }
  }

  // ---------- the batch handler ----------

  /** p0 is a copy of p: the same tables and entries, perhaps in other chains. */
  ghost predicate CopyOf(p: Contents, p0: Contents) {
    && p.Wf() && p0.Wf() && p0.sym == p.sym && p0.nel == p.nel && p0.len == p.len
    && forall k :: p0.Lookup(k) == p.Lookup(k)
  }

  /** The batch loop's state: the commands read so far, and what applying them to the copy gave. */
  ghost predicate Progress(other: Other, p0: Contents, b: Bytes, done: seq<Command>, oks: seq<bool>, rest: Bytes,
                           p: Contents, count: nat)
  {
    && ValidCommands(done) && b == Encode(done) + rest
    && Reaches(other, p0, done, oks, p) && count == Successes(oks)
  }

  lemma ProgressStart(other: Other, p0: Contents, b: Bytes)
    ensures Progress(other, p0, b, [], [], b, p0, 0)
  {
    assert b == Encode([]) + b;
  }

  lemma ProgressStep(other: Other, p0: Contents, b: Bytes, done: seq<Command>, oks: seq<bool>, rest: Bytes,
                     p: Contents, count: nat, q: Contents, ok: bool)
    requires Progress(other, p0, b, done, oks, rest, p, count) && DecodeCommand(rest).Some?
    requires Applied(other, p, DecodeCommand(rest).value.0, q, ok)
    ensures var (c, r) := DecodeCommand(rest).value;
            Progress(other, p0, b, done + [c], oks + [ok], r, q, if ok then count + 1 else count)
  {
    hide EncodeCommand, DecodeCommand, Reaches, Applied, Successes;
    var (c, r) := DecodeCommand(rest).value;
    CommandOfDecode(rest);
    EncodeSnoc(done, c);
    ReachesMore(other, p0, done, oks, p, c, ok, q);
    assert Encode(done) + (EncodeCommand(c) + r) == (Encode(done) + EncodeCommand(c)) + r;
  }

  /** A decode error anywhere makes the whole batch undecodable; reaching the end decodes it all. */
  lemma ProgressEnd(other: Other, p0: Contents, b: Bytes, done: seq<Command>, oks: seq<bool>, rest: Bytes,
                    p: Contents, count: nat)
    requires Progress(other, p0, b, done, oks, rest, p, count)
    ensures rest != [] && DecodeCommand(rest).None? ==> Decode(b) == None
    ensures rest == [] ==> Decode(b) == Some(done)
    ensures Reaches(other, p0, done, oks, p) && count == Successes(oks)
  {
    hide DecodeCommand, Encode, Reaches, Successes;
    DecodeAfter(b, done, rest);
    assert done + [] == done;
  }

  /** The published policy, with what the commands that are not rules do. */
  class PolicyHolder {
    var policy: PolicyDb
    const other: Other

    constructor (policy: PolicyDb, other: Other)
      requires policy.Valid() && KeepsTables(other)
      ensures Valid() && this.policy == policy && this.other == other
    {
      this.policy, this.other := policy, other;
    }

    ghost predicate Valid()
      reads this, policy, policy.htable
    {
      policy.Valid() && KeepsTables(other)
    }

    /** apply_one_sepolicy_cmd on the copy under way: a rule edits it in place. */
    method ApplyCommand(pol: PolicyDb, c: Command) returns (next: PolicyDb, ok: bool)
      requires pol.Valid() && KeepsTables(other)
      modifies pol`nel, pol`len, pol.htable
      ensures next.Valid() && Applied(other, old(pol.Now()), c, next.Now(), ok)
      ensures next == pol || (fresh(next) && fresh(next.htable))
      ensures c.cmd == 1 && |c.args| == 4 ==> DoneByNumber(old(pol.Now()), c.subcmd, NamesOf(c), next.Now(), ok)
    {
      hide Ruled, DoneByNumber;
      if c.cmd != CMD_NORMAL_PERM || |c.args| != 4 {
        next, ok := ApplyOther(pol, c);
        return;
      }
      next := pol;
      ghost var before := pol.Now();
      var rule := RuleOf(c);
      if rule.None? {
        CommandByNumber(other, before, c, before, false);
        return pol, false;
      }
      ok := pol.ApplyEdit(rule.value);
      CommandByNumber(other, before, c, pol.Now(), ok);
    }

    /** The commands that are not rules. */
    method ApplyOther(pol: PolicyDb, c: Command) returns (next: PolicyDb, ok: bool)
      requires pol.Valid() && KeepsTables(other)
      ensures next.Valid() && (next.Now(), ok) == other(c, pol.Now())
      ensures fresh(next) && fresh(next.htable)
    {
      var result := other(c, Contents(pol.sym, pol.hash, pol.htable[..], pol.nel, pol.len));
      next := new PolicyDb.Of(result.0);
      ok := result.1;
    }

    /** One round of the batch loop. */
    method ApplyNext(cursor: BatchCursor, pol: PolicyDb, count: nat, ghost p0: Contents, ghost b: Bytes,
                     ghost done: seq<Command>, ghost oks: seq<bool>)
      returns (ret: int, next: PolicyDb, count': nat, ghost done': seq<Command>, ghost oks': seq<bool>)
      requires cursor.Valid() && cursor.Rest() != [] && pol.Valid() && KeepsTables(other)
      requires Progress(other, p0, b, done, oks, cursor.Rest(), pol.Now(), count)
      modifies cursor, pol`nel, pol`len, pol.htable
      ensures cursor.Valid() && next.Valid() && (next == pol || (fresh(next) && fresh(next.htable)))
      ensures ret < 0 ==> ret == -EINVAL && Decode(b) == None
      ensures ret >= 0 ==> Progress(other, p0, b, done', oks', cursor.Rest(), next.Now(), count')
                           && |cursor.Rest()| < |old(cursor.Rest())|
    {
      ghost var rest, before := cursor.Rest(), pol.Now();
      next, count', done', oks' := pol, count, done, oks;
      hide *;
      var c;
      ret, c := cursor.ReadCommand();
      if ret < 0 {
        ProgressEnd(other, p0, b, done, oks, rest, before, count);
        return;
      }
      CommandShorter(rest);
      var ok;
      next, ok := ApplyCommand(pol, c);
      ProgressStep(other, p0, b, done, oks, rest, before, count, next.Now(), ok);
      count' := if ok then count + 1 else count;
      done', oks' := done + [c], oks + [ok];
    }

    /** The batch loop, on a copy. */
    method ApplyBatch(copy: PolicyDb, payload: array<Byte>) returns (ret: int, pol: PolicyDb, ghost oks: seq<bool>)
      requires copy.Valid() && KeepsTables(other)
      modifies copy`nel, copy`len, copy.htable
      ensures pol.Valid() && (pol == copy || (fresh(pol) && fresh(pol.htable)))
      ensures match Decode(payload[..])
              case None => ret == -EINVAL
              case Some(cs) => ret == Successes(oks) && Reaches(other, old(copy.Now()), cs, oks, pol.Now())
    {
      pol, oks := copy, [];
      ghost var p0, b, done: seq<Command> := copy.Now(), payload[..], [];
      var cursor := new BatchCursor(payload);
      hide *;
      ProgressStart(other, p0, b);
      var count := 0;
      while cursor.Remaining() > 0
        invariant cursor.Valid() && fresh(cursor) && cursor.buf == payload && payload[..] == b && count >= 0
        invariant pol == copy || (fresh(pol) && fresh(pol.htable))
        invariant pol.Valid() && Progress(other, p0, b, done, oks, cursor.Rest(), pol.Now(), count)
        decreases |cursor.Rest()|
      {
        ret, pol, count, done, oks := ApplyNext(cursor, pol, count, p0, b, done, oks);
        if ret < 0 {
          return;
        }
      }
      ProgressEnd(other, p0, b, done, oks, cursor.Rest(), pol.Now(), count);
      ret := count;
    }

    /** handle_sepolicy: the whole batch is decoded and applied to a copy p0, and the copy is published only if
      * every byte of the payload decoded. The policy object that was published before is never touched, not even by
      * commands that precede a decode error. dupOk is whether duplicating the policy succeeds. */
    method HandleSepolicy(payload: array<Byte>, dupOk: bool)
      returns (ret: int, ghost p0: Contents, ghost oks: seq<bool>)
      requires Valid()
      modifies `policy
      ensures Valid() && old(policy).Now() == old(policy.Now())
      ensures ret < 0 ==> policy == old(policy)
      ensures if payload.Length == 0 then ret == -EINVAL
              else if payload.Length > MAX_BATCH_SIZE then ret == -E2BIG
              else if !dupOk then ret == -ENOMEM
              else match Decode(payload[..])
                case None => ret == -EINVAL
                case Some(cs) =>
                  && fresh(policy) && ret == Successes(oks)
                  && CopyOf(old(policy.Now()), p0) && Reaches(other, p0, cs, oks, policy.Now())
    {
      p0, oks := policy.Now(), [];
      if payload.Length == 0 {
        return -EINVAL, p0, oks;
      }
      if payload.Length > MAX_BATCH_SIZE {
        return -E2BIG, p0, oks;
      }
      if !dupOk {
        return -ENOMEM, p0, oks;
      }
      var copy := new PolicyDb.Duplicate(policy);
      p0 := copy.Now();
      assert CopyOf(policy.Now(), p0) by {
        assert forall k :: p0.Lookup(k) == copy.Lookup(k) && policy.Now().Lookup(k) == policy.Lookup(k);
      }
      hide CopyOf, Decode, Reaches, Successes, KeepsTables;
      var pol;
      ret, pol, oks := ApplyBatch(copy, payload);
      if ret >= 0 {
        policy := pol;
      }
    }

    /** sepolicy_live_patch, from parsed statements on: it reports success exactly when the kernel applied every
      * statement, and otherwise the policy is either untouched or what the commands in order make of it. */
    method LivePatch(sts: seq<AtomicStatement>, dupOk: bool)
      returns (result: int, ghost p0: Contents, ghost oks: seq<bool>)
      requires Valid() && WfStatements(sts)
      modifies `policy
      ensures Valid() && old(policy).Now() == old(policy.Now())
      ensures Patchable(sts) && sts != [] && dupOk ==>
                && CopyOf(old(policy.Now()), p0) && Reaches(other, p0, CommandsOf(sts), oks, policy.Now())
                && result == if forall i :: 0 <= i < |oks| ==> oks[i] then 0 else 1
      ensures !(Patchable(sts) && sts != [] && dupOk) ==>
                policy == old(policy) && result == if sts == [] then 0 else 1
    {
      p0, oks := policy.Now(), [];
      if |sts| == 0 {
        return 0, p0, oks;
      }
      hide Valid, CopyOf, Reaches, Successes;
      var ser := new Serializer();
      var ok := ser.SerializeStatements(sts);
      if !ok {
        return 1, p0, oks;
      }
      var bytes := ser.payload;
      ghost var cs := CommandsOf(sts);
      DecodeOfEncode(cs);
      EncodeNonEmpty(cs);
      var payload := new Byte[|bytes|](i requires 0 <= i < |bytes| => bytes[i]);
      assert payload[..] == bytes;
      var applied;
      applied, p0, oks := HandleSepolicy(payload, dupOk);
      if applied < 0 {
        return 1, p0, oks;
      }
      SuccessesAreAll(oks);
      ReachesLength(other, p0, cs, oks, policy.Now());
      if applied < |sts| {
        return 1, p0, oks;
      }
      return 0, p0, oks;
    }

    /** A live patch of rules: the published policy's vectors are the set readings of the statements, in order and
      * with `*` as the wildcard, and success means that all their names exist; a policy that cannot be duplicated is
      * left alone. */
    method PatchRules(sts: seq<AtomicStatement>, dupOk: bool) returns (result: int)
      requires Valid() && RuleStatements(sts) && WfStatements(sts) && Patchable(sts)
      modifies `policy
      ensures Valid() && policy.sym == old(policy).sym && policy.LenOfRest() == old(policy.LenOfRest())
      ensures !dupOk ==> policy == old(policy) && result == if sts == [] then 0 else 1
      ensures dupOk ==>
                && (forall k :: policy.Lookup(k) == policy.sym.LookAfter(StatementRules(sts), k, old(policy.Lookup(k))))
                && (forall k: AvKey ::
                      k.effect != AuditDeny
                      || (forall e: RuleEdit :: e in StatementRules(sts) ==> e.op != OpDontAudit) ==>
                      policy.Vec(k) == policy.sym.VecAfter(StatementRules(sts), k, old(policy.Vec(k))))
                && (result == 0 <==>
                    forall e: RuleEdit :: e in StatementRules(sts) ==> policy.sym.Resolve(e.names).Some?)
      ensures dupOk ==>
                && (forall k :: policy.Lookup(k) == NodesAfter(policy.sym, sts, k, old(policy.Lookup(k))))
                && (result == 0 <==> forall i :: 0 <= i < |sts| ==> Known(policy.sym, StatementNames(sts[i])))
    {
      ghost var before, p0, oks := policy.Now(), policy.Now(), [];
      NowReads(policy);
      result, p0, oks := LivePatch(sts, dupOk);
      NowReads(policy);
      if sts == [] || !dupOk {
        return;
      }
      PatchByNumber(policy.sym, sts);
      ghost var after := policy.Now();
      assert KnownCommands(sts);
      hide *;
      PatchedRules(other, before, p0, sts, oks, after);
      PatchedVecs(before, after, StatementRules(sts));
    }
  }

  lemma PatchByNumber(sym: Symbols, sts: seq<AtomicStatement>)
    requires RuleStatements(sts) && forall i :: 0 <= i < |sts| ==> |sts[i].sepol| == 7
    ensures forall k, cur :: sym.LookAfter(StatementRules(sts), k, cur) == NodesAfter(sym, sts, k, cur)
    ensures (forall e: RuleEdit :: e in StatementRules(sts) ==> sym.Resolve(e.names).Some?) <==>
            forall i :: 0 <= i < |sts| ==> Known(sym, StatementNames(sts[i]))
  {
    forall k, cur
      ensures sym.LookAfter(StatementRules(sts), k, cur) == NodesAfter(sym, sts, k, cur)
    {
      RulesByNumber(sym, sts, k, cur);
    }
    forall i | 0 <= i < |sts|
      ensures StatementRules(sts)[i].names == StatementNames(sts[i])
      ensures sym.Resolve(StatementRules(sts)[i].names).Some? <==> Known(sym, StatementNames(sts[i]))
    {
      ResolveIffKnown(sym, StatementNames(sts[i]));
    }
  }

  /** What a policy holds is what its contents hold. */
  lemma NowReads(db: PolicyDb)
    requires db.Valid()
    ensures db.Now().Wf() && db.Now().sym == db.sym && db.Now().LenOfRest() == db.LenOfRest()
    ensures forall k :: db.Lookup(k) == db.Now().Lookup(k) && db.Vec(k) == db.Now().Vec(k)
  {
  }

  /** Edits of the nodes are set readings of the vectors, except for dontaudit. */
  lemma PatchedVecs(before: Contents, after: Contents, rules: seq<RuleEdit>)
    requires before.Wf() && after.Wf() && after.sym == before.sym
    requires forall k :: after.Lookup(k) == before.sym.LookAfter(rules, k, before.Lookup(k))
    ensures forall k: AvKey ::
              k.effect != AuditDeny || (forall e: RuleEdit :: e in rules ==> e.op != OpDontAudit) ==>
              after.Vec(k) == after.sym.VecAfter(rules, k, before.Vec(k))
  {
    assert |before.chains| > 0 && |after.chains| > 0;
    hide Contents.Wf, Contents.Lookup;
    forall k: AvKey | k.effect != AuditDeny || forall e: RuleEdit :: e in rules ==> e.op != OpDontAudit
      ensures after.Vec(k) == after.sym.VecAfter(rules, k, before.Vec(k))
    {
      before.sym.LookIsVec(rules, k, before.Lookup(k));
    }
  }

  /** All commands are known and the batch is not too large. */
  ghost predicate Patchable(sts: seq<AtomicStatement>)
    requires WfStatements(sts)
  {
    KnownCommands(sts) && ValidCommands(CommandsOf(sts)) && |Encode(CommandsOf(sts))| <= MAX_BATCH_SIZE
  }

  lemma ReachesLength(other: Other, p: Contents, cs: seq<Command>, oks: seq<bool>, q: Contents)
    requires Reaches(other, p, cs, oks, q)
    ensures |oks| == |cs|
  {
  }

  // ---------- rules as statements ----------

  /** A statement the daemon builds for allow, deny, auditallow or dontaudit. */
  ghost predicate RuleStatement(st: AtomicStatement) {
    WfStatement(st) && st.cmd == CMD_NORMAL_PERM && OpOf(st.subcmd).Some?
  }

  ghost predicate RuleStatements(sts: seq<AtomicStatement>) {
    forall i :: 0 <= i < |sts| ==> RuleStatement(sts[i])
  }

  function OperandOf(o: PolicyObject): Option<string> {
    NameOf(ArgOf(o))
  }

  function StatementRule(st: AtomicStatement): RuleEdit
    requires |st.sepol| == 7 && OpOf(st.subcmd).Some?
  {
    RuleEdit(OpOf(st.subcmd).value,
             RuleNames(OperandOf(st.sepol[0]), OperandOf(st.sepol[1]), OperandOf(st.sepol[2]), OperandOf(st.sepol[3])))
  }

  ghost function StatementRules(sts: seq<AtomicStatement>): seq<RuleEdit>
    requires RuleStatements(sts)
  {
    seq(|sts|, i requires 0 <= i < |sts| && RuleStatement(sts[i]) => StatementRule(sts[i]))
  }

  /** What a text operand of a rule means in the kernel: its own name exactly when it is not empty, not `*`, has no
    * NUL and fits the buffer; the wildcard when it is empty, `*` or too long. */
  lemma OperandOfText(s: Bytes)
    ensures OperandOf(FromStr(s)) == Some(TextOf(s)) <==>
            s != [] && s != STAR && 0 !in s && |s| < SEPOLICY_MAX_LEN
    ensures OperandOf(FromStr(s)) == None <==>
            s == [] || s == STAR || |s| >= SEPOLICY_MAX_LEN || s[0] == 0
  {
    TextSurvives(s);
    CStrIsC(s);
    if FromStr(s).One? && OperandOf(FromStr(s)) == Some(TextOf(s)) {
      var t := CStr(s);
      assert |TextOf(t)| == |t| && |TextOf(s)| == |s|;
      forall i | 0 <= i < |s|
        ensures t[i] == s[i]
      {
        assert TextOf(t)[i] == TextOf(s)[i];
      }
    }
  }

  /** The command of a rule statement states that rule. */
  lemma StatementCommand(st: AtomicStatement)
    requires RuleStatement(st)
    ensures ExpectedArgc(st.cmd) == 4 && IsRule(CommandOf(st)) && RuleOf(CommandOf(st)) == Some(StatementRule(st))
  {
  }

  lemma {:induction false} RulesOfKnown(cs: seq<Command>)
    requires forall i :: 0 <= i < |cs| ==> IsRule(cs[i]) && RuleOf(cs[i]).Some?
    ensures |RulesOf(cs)| == |cs| && forall i :: 0 <= i < |cs| ==> RulesOf(cs)[i] == RuleOf(cs[i]).value
  {
    if cs != [] {
      RulesOfKnown(cs[..|cs| - 1]);
    }
  }

  /** The rules of a batch are those of the statements it was made from. */
  lemma RulesOfStatements(sts: seq<AtomicStatement>)
    requires RuleStatements(sts)
    ensures WfStatements(sts) && KnownCommands(sts)
    ensures forall c :: c in CommandsOf(sts) ==> IsRule(c)
    ensures RulesOf(CommandsOf(sts)) == StatementRules(sts)
    ensures forall i :: 0 <= i < |sts| ==>
              IsRule(CommandsOf(sts)[i]) && RuleOf(CommandsOf(sts)[i]) == Some(StatementRules(sts)[i])
  {
    hide *;
    RulesWf(sts);
    var cs := CommandsOf(sts);
    forall i | 0 <= i < |cs|
      ensures IsRule(cs[i]) && RuleOf(cs[i]) == Some(StatementRules(sts)[i])
    {
      RuleAt(sts, i);
      CommandsOfAt(sts, i);
      StatementCommand(sts[i]);
    }
    RulesOfKnown(cs);
  }

  lemma RulesWf(sts: seq<AtomicStatement>)
    requires RuleStatements(sts)
    ensures WfStatements(sts) && KnownCommands(sts) && |StatementRules(sts)| == |sts|
  {
    forall i | 0 <= i < |sts|
      ensures WfStatement(sts[i]) && ExpectedArgc(sts[i].cmd) == 4
    {
      StatementCommand(sts[i]);
    }
  }

  lemma RuleAt(sts: seq<AtomicStatement>, i: nat)
    requires RuleStatements(sts) && i < |sts|
    ensures RuleStatement(sts[i]) && WfStatement(sts[i]) && ExpectedArgc(sts[i].cmd) >= 0
    ensures |sts[i].sepol| == 7 && OpOf(sts[i].subcmd).Some?
    ensures |StatementRules(sts)| == |sts| && StatementRules(sts)[i] == StatementRule(sts[i])
  {
    StatementCommand(sts[i]);
  }

  /** What a batch of rule statements makes of the policy it was sent for. */
  lemma PatchedRules(other: Other, before: Contents, p0: Contents, sts: seq<AtomicStatement>, oks: seq<bool>,
                     after: Contents)
    requires RuleStatements(sts)
    requires WfStatements(sts) && KnownCommands(sts)
    requires CopyOf(before, p0) && Reaches(other, p0, CommandsOf(sts), oks, after)
    ensures after.Wf() && after.sym == before.sym && after.LenOfRest() == before.LenOfRest()
    ensures forall k :: after.Lookup(k) == before.sym.LookAfter(StatementRules(sts), k, before.Lookup(k))
    ensures (forall i :: 0 <= i < |oks| ==> oks[i]) <==>
            forall e: RuleEdit :: e in StatementRules(sts) ==> before.sym.Resolve(e.names).Some?
  {
    RulesOfStatements(sts);
    var cs, rules := CommandsOf(sts), StatementRules(sts);
    ReachesLength(other, p0, cs, oks, after);
    RulesReach(other, p0, cs, oks, after);
    hide *;
    AllResolve(before.sym, cs, rules, oks);
    forall k
      ensures after.Lookup(k) == before.sym.LookAfter(rules, k, before.Lookup(k))
    {
      CopyLooks(before, p0, k);
    }
    CopyKeeps(before, p0);
  }

  lemma AllResolve(sym: Symbols, cs: seq<Command>, rules: seq<RuleEdit>, oks: seq<bool>)
    requires |oks| == |cs| == |rules|
    requires forall i :: 0 <= i < |cs| ==> IsRule(cs[i]) && RuleOf(cs[i]) == Some(rules[i])
    requires forall i :: 0 <= i < |cs| ==> (oks[i] <==> Resolves(sym, cs[i]))
    ensures (forall i :: 0 <= i < |oks| ==> oks[i]) <==>
            forall e: RuleEdit :: e in rules ==> sym.Resolve(e.names).Some?
  {
    hide IsRule, RuleOf, Symbols.Resolve;
    if forall e: RuleEdit :: e in rules ==> sym.Resolve(e.names).Some? {
      forall i | 0 <= i < |oks|
        ensures oks[i]
      {
        assert rules[i] in rules;
      }
    }
  }

  lemma CopyLooks(p: Contents, p0: Contents, k: AvKey)
    requires CopyOf(p, p0)
    ensures p.Wf() && p0.Wf() && p0.Lookup(k) == p.Lookup(k)
  {
  }

  lemma CopyKeeps(p: Contents, p0: Contents)
    requires CopyOf(p, p0)
    ensures p0.sym == p.sym && p0.LenOfRest() == p.LenOfRest()
  {
  }

  lemma CommandShorter(b: Bytes)
    requires DecodeCommand(b).Some?
    ensures |DecodeCommand(b).value.1| < |b|
  {
  }
}
