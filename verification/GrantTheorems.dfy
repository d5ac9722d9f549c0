/** What the grant protocol guarantees in every reachable state, and that it can always finish. */
module GrantTheorems {
  import opened AvTab
  import opened FileLoadPolicy
  import opened GrantProtocol
  import opened GrantProofs

  lemma InitInv(base: AvKey -> Av)
    ensures Inv(Init(base)) && InvPolicy(Init(base))
  {
    var s := Init(base);
    forall k
      ensures Granted(s, k) == {}
    {
    }
  }

  lemma StepKeeps(s: State, ev: Event)
    requires Inv(s) && Enabled(s, ev)
    ensures Inv(Apply(s, ev))
  {
    StepStructure(s, ev);
    StepLog(s, ev);
  }

  lemma {:induction false} RunKeeps(s: State, evs: seq<Event>)
    requires Inv(s) && IsRun(s, evs)
    ensures Inv(After(s, evs))
    decreases |evs|
  {
    hide Inv;
    if evs != [] {
      StepKeeps(s, evs[0]);
      RunKeeps(Apply(s, evs[0]), evs[1..]);
    }
  }

  lemma ReachableInv(base: AvKey -> Av, evs: seq<Event>)
    requires IsRun(Init(base), evs)
    ensures Inv(After(Init(base), evs))
  {
    InitInv(base);
    RunKeeps(Init(base), evs);
  }

  // ---------- the policy ----------

  /** No batch says something of a bit that is on loan at that point. */
  ghost predicate NoClash(s: State, evs: seq<Event>)
    requires IsRun(s, evs)
    decreases |evs|
  {
    evs == [] || (!Clash(s, evs[0]) && NoClash(Apply(s, evs[0]), evs[1..]))
  }

  /** The policy is exact in every state of the run. */
  ghost predicate AlwaysExact(s: State, evs: seq<Event>)
    requires IsRun(s, evs)
    decreases |evs|
  {
    InvPolicy(s) && (evs == [] || AlwaysExact(Apply(s, evs[0]), evs[1..]))
  }

  /** The policy stays exact throughout a run exactly when no batch says something of a bit on loan. */
  lemma {:induction false} ExactIff(s: State, evs: seq<Event>)
    requires Inv(s) && InvPolicy(s) && IsRun(s, evs)
    ensures AlwaysExact(s, evs) <==> NoClash(s, evs)
    ensures NoClash(s, evs) ==> InvPolicy(After(s, evs))
    decreases |evs|
  {
    hide Inv, InvPolicy, Clash;
    if evs != [] {
      StepKeeps(s, evs[0]);
      StepPolicy(s, evs[0]);
      var t := Apply(s, evs[0]);
      if !Clash(s, evs[0]) {
        ExactIff(t, evs[1..]);
      } else {
        assert !AlwaysExact(t, evs[1..]);
      }
    }
  }

  /** The base vector of a key after the batches of a run. */
  ghost function Patched(v: Av, evs: seq<Event>, k: AvKey): Av
    decreases |evs|
  {
    if evs == [] then v
    else Patched(if evs[0].Patch? then v - evs[0].off(k) + evs[0].on(k) else v, evs[1..], k)
  }

  lemma {:induction false} BaseIsPatched(s: State, evs: seq<Event>, k: AvKey)
    requires IsRun(s, evs)
    ensures After(s, evs).base(k) == Patched(s.base(k), evs, k)
    decreases |evs|
  {
    if evs != [] {
      BaseIsPatched(Apply(s, evs[0]), evs[1..], k);
    }
  }

  /** In every interleaving in which no batch says something of a bit on loan, the policy is the base policy, as the
    * batches made it, plus exactly the outstanding grants and the bits that failed restores left behind; all of these
    * are disjoint from one another and from the base; so an entry of the policy is the base entry again exactly when
    * no grant on it is outstanding and none was left behind. */
  lemma PolicyIsBasePlusGrants(base: AvKey -> Av, evs: seq<Event>)
    requires IsRun(Init(base), evs) && NoClash(Init(base), evs)
    ensures var s := After(Init(base), evs);
            && (forall k :: s.base(k) == Patched(base(k), evs, k))
            && (forall k :: s.policy(k) == s.base(k) + s.stuck(k) + Granted(s, k))
            && (forall k :: s.stuck(k) !! s.base(k))
            && (forall h, k :: HeldBits(s, h, k) !! s.base(k) + s.stuck(k))
            && (forall h, h', k :: h != h' ==> HeldBits(s, h, k) !! HeldBits(s, h', k))
            && (forall k :: s.policy(k) == s.base(k) <==> Granted(s, k) == {} && s.stuck(k) == {})
  {
    InitInv(base);
    ExactIff(Init(base), evs);
    var s := After(Init(base), evs);
    forall k
      ensures s.base(k) == Patched(base(k), evs, k)
    {
      BaseIsPatched(Init(base), evs, k);
    }
    forall k
      ensures s.policy(k) == s.base(k) <==> Granted(s, k) == {} && s.stuck(k) == {}
    {
      ExactAt(s, k);
    }
  }

  lemma ExactAt(s: State, k: AvKey)
    requires InvPolicy(s)
    ensures s.policy(k) == s.base(k) <==> Granted(s, k) == {} && s.stuck(k) == {}
  {
    if p :| p in Granted(s, k) {
      var h :| p in HeldBits(s, h, k);
      assert HeldBits(s, h, k) !! s.base(k) + s.stuck(k);
    }
    if p :| p in s.stuck(k) {
      assert s.stuck(k) !! s.base(k);
    }
  }

  // ---------- restores that fail ----------

  /** A restore that fails although the policy has a bit of its record that the base does not account for. */
  ghost predicate Strands(s: State, ev: Event)
    requires Enabled(s, ev)
  {
    var g := Restoring(s, ev);
    g.Some? && !ev.ok && exists k, p :: p in g.value.Bits(k) && p in s.policy(k) && p !in s.base(k)
  }

  ghost predicate NoneStranded(s: State, evs: seq<Event>)
    requires IsRun(s, evs)
    decreases |evs|
  {
    evs == [] || (!Strands(s, evs[0]) && NoneStranded(Apply(s, evs[0]), evs[1..]))
  }

  ghost predicate NothingStuck(s: State) {
    forall k :: s.stuck(k) == {}
  }

  ghost predicate NeverStuck(s: State, evs: seq<Event>)
    requires IsRun(s, evs)
    decreases |evs|
  {
    NothingStuck(s) && (evs == [] || NeverStuck(Apply(s, evs[0]), evs[1..]))
  }

  lemma StepStuck(s: State, ev: Event)
    requires Enabled(s, ev)
    ensures NothingStuck(s) ==> (NothingStuck(Apply(s, ev)) <==> !Strands(s, ev))
  {
    var g, s' := Restoring(s, ev), Apply(s, ev);
    hide Grant.Bits;
    if Strands(s, ev) {
      var k, p :| p in g.value.Bits(k) && p in s.policy(k) && p !in s.base(k);
      assert p in s'.stuck(k);
    }
  }

  /** While the policy is exact, only a batch or a restore that fails changes what is left behind. */
  lemma StuckStays(s: State, ev: Event)
    requires InvPolicy(s) && Enabled(s, ev) && !ev.Patch?
    ensures forall k :: Apply(s, ev).stuck(k) >= s.stuck(k)
    ensures Succeeds(ev) ==> forall k :: Apply(s, ev).stuck(k) == s.stuck(k)
  {
    if Restoring(s, ev).Some? {
      var g, h := Restoring(s, ev).value, RestoredHolder(s, ev);
      forall k
        ensures g.Bits(k) !! s.stuck(k)
      {
        assert g.Bits(k) == HeldBits(s, h, k) && HeldBits(s, h, k) !! s.base(k) + s.stuck(k);
      }
      hide Grant.Bits;
    }
  }

  /** Not a restore that fails. */
  predicate Succeeds(ev: Event) {
    (ev.GiveBack? || ev.RestoreHead? || ev.TimeoutRestore?) ==> ev.ok
  }

  lemma {:induction false} StuckKept(s: State, evs: seq<Event>, k: AvKey)
    requires Inv(s) && InvPolicy(s) && InternalRun(s, evs)
    ensures After(s, evs).stuck(k) == s.stuck(k)
    decreases |evs|
  {
    hide Inv, InvPolicy;
    if evs != [] {
      assert Internal(evs[0]) && forall i :: 0 <= i < |evs[1..]| ==> evs[1..][i] == evs[i + 1];
      StepKeeps(s, evs[0]);
      StepPolicy(s, evs[0]);
      StuckStays(s, evs[0]);
      StuckKept(Apply(s, evs[0]), evs[1..], k);
    }
  }

  /** In any run, nothing is ever left behind exactly when no restore fails on a record with bits to take back. */
  lemma {:induction false} StuckIffStranded(s: State, evs: seq<Event>)
    requires IsRun(s, evs) && NothingStuck(s)
    ensures NeverStuck(s, evs) <==> NoneStranded(s, evs)
    ensures NoneStranded(s, evs) ==> NothingStuck(After(s, evs))
    decreases |evs|
  {
    hide NothingStuck, Strands, Enabled, Apply;
    if evs != [] {
      StepStuck(s, evs[0]);
      var t := Apply(s, evs[0]);
      if NothingStuck(t) {
        StuckIffStranded(t, evs[1..]);
      } else {
        assert !NeverStuck(t, evs[1..]);
      }
    }
  }

  ghost predicate NoBatch(evs: seq<Event>) {
    forall i :: 0 <= i < |evs| ==> !evs[i].Patch?
  }

  /** Without batches, what is left behind stays: so nothing is at the end exactly when nothing ever was. */
  lemma {:induction false} StuckAtTheEnd(s: State, evs: seq<Event>)
    requires Inv(s) && InvPolicy(s) && IsRun(s, evs) && NoBatch(evs)
    ensures NothingStuck(After(s, evs)) <==> NothingStuck(s) && NoneStranded(s, evs)
    decreases |evs|
  {
    if evs != [] {
      assert !evs[0].Patch? && NoBatch(evs[1..]);
      StepKeeps(s, evs[0]);
      StepPolicy(s, evs[0]);
      StepStuck(s, evs[0]);
      StuckStays(s, evs[0]);
      assert NothingStuck(Apply(s, evs[0])) ==> NothingStuck(s);
      hide NothingStuck, Inv, InvPolicy, Strands, Enabled, Apply, NoBatch;
      StuckAtTheEnd(Apply(s, evs[0]), evs[1..]);
    }
  }

  lemma HasBits(g: Grant)
    ensures g.HasAdditions() <==> exists k, p :: p in g.Bits(k)
  {
    if g.HasAdditions() {
      var k := AvKey(g.src, if g.added != {} then g.tgt else g.tmpfs, g.cls, Allowed);
      assert g.Bits(k) >= if g.added != {} then g.added else g.tmpfsAdded;
      var p :| p in if g.added != {} then g.added else g.tmpfsAdded;
      assert p in g.Bits(k);
    }
  }

  /** While the policy is exact, every restore that fails on a record with bits leaves them behind. */
  lemma ExactStrands(s: State, ev: Event)
    requires InvPolicy(s) && Enabled(s, ev)
    ensures Strands(s, ev) <==> Restoring(s, ev).Some? && !ev.ok && Restoring(s, ev).value.HasAdditions()
  {
    if Restoring(s, ev).Some? {
      var g, h := Restoring(s, ev).value, RestoredHolder(s, ev);
      HasBits(g);
      forall k
        ensures g.Bits(k) == HeldBits(s, h, k) && g.Bits(k) <= s.policy(k) && g.Bits(k) !! s.base(k)
      {
        HeldInPolicy(s, h, k);
        assert HeldBits(s, h, k) !! s.base(k) + s.stuck(k);
      }
    }
  }

  /** Once all calls and timers are finished, the policy is the base policy again exactly when nothing is left behind
    * and nothing was taken from it; without batches, exactly when no restore of a record with bits has failed. */
  lemma BaseAgainIff(base: AvKey -> Av, evs: seq<Event>)
    requires IsRun(Init(base), evs) && Quiet(After(Init(base), evs))
    ensures var s := After(Init(base), evs);
            (forall k :: s.policy(k) == s.base(k)) <==> NothingStuck(s) && Faithful(s)
    ensures NoBatch(evs) ==>
              ((forall k :: After(Init(base), evs).policy(k) == base(k)) <==> NoneStranded(Init(base), evs))
  {
    InitInv(base);
    var s := After(Init(base), evs);
    AfterAccounted(Init(base), evs);
    QuietGrantsNothing(s);
    hide Granted;
    QuietIs(s);
    if NoBatch(evs) {
      NoBatchNoClash(Init(base), evs);
      ExactIff(Init(base), evs);
      StuckAtTheEnd(Init(base), evs);
    }
  }

  lemma QuietIs(s: State)
    requires Accounted(s) && forall k :: Granted(s, k) == {}
    ensures (forall k :: s.policy(k) == s.base(k)) <==> NothingStuck(s) && Faithful(s)
    ensures InvPolicy(s) ==> Faithful(s)
  {
    hide Granted;
    if forall k :: s.policy(k) == s.base(k) {
      forall k
        ensures s.stuck(k) == {}
      {
        assert s.stuck(k) !! s.base(k) && s.stuck(k) <= s.policy(k);
      }
    }
    if NothingStuck(s) && Faithful(s) {
      forall k
        ensures s.policy(k) == s.base(k)
      {
        assert s.policy(k) <= s.base(k) + s.stuck(k) + Granted(s, k);
      }
    }
  }

  lemma {:induction false} NoBatchNoClash(s: State, evs: seq<Event>)
    requires IsRun(s, evs) && NoBatch(evs)
    ensures NoClash(s, evs) && After(s, evs).base == s.base
    decreases |evs|
  {
    if evs != [] {
      assert !evs[0].Patch? && NoBatch(evs[1..]);
      NoBatchNoClash(Apply(s, evs[0]), evs[1..]);
    }
  }

  /** For example, an injection is granted a bit, fails, and cannot duplicate the policy to give it back: with no call
    * and no record left, the bit is still in the policy. */
  lemma GrantLeftBehind()
    ensures var g := Grant(1, 2, 0, 3, {5}, {});
            var evs := [Allow(0, g), GiveBack(0, false)];
            && IsRun(Init(k => {}), evs) && Quiet(After(Init(k => {}), evs))
            && After(Init(k => {}), evs).policy(AvKey(1, 2, 3, Allowed)) == {5}
  {
    var g := Grant(1, 2, 0, 3, {5}, {});
    var evs := [Allow(0, g), GiveBack(0, false)];
    var s := Init(k => {});
    var s1 := Apply(s, evs[0]);
    assert evs[1..] == [GiveBack(0, false)] && evs[1..][1..] == [];
    assert After(s, evs) == After(s1, evs[1..]) == After(Apply(s1, evs[1]), []) == Apply(s1, evs[1]);
  }

  // ---------- batches and grants that do clash ----------

  /** All that the base accounts for is in the policy. */
  ghost predicate Faithful(s: State) {
    forall k :: s.base(k) <= s.policy(k)
  }

  /** Nothing is in the policy that the base, a failed restore or an outstanding grant does not account for. */
  ghost predicate Accounted(s: State) {
    forall k :: s.stuck(k) !! s.base(k) && s.stuck(k) <= s.policy(k)
                && s.policy(k) <= s.base(k) + s.stuck(k) + Granted(s, k)
  }

  /** A restore takes away a bit that the base accounts for: a batch allowed it while it was on loan. */
  ghost predicate Robs(s: State, ev: Event)
    requires Enabled(s, ev)
  {
    var g := Restoring(s, ev);
    g.Some? && ev.ok && exists k, p :: p in g.value.Bits(k) && p in s.base(k)
  }

  /** A restore returns the bits of its record to what the base says of them exactly when it robs the base of none. */
  lemma RestoreReturnsIff(s: State, ev: Event)
    requires Enabled(s, ev) && Restoring(s, ev).Some? && ev.ok
    ensures var g, s' := Restoring(s, ev).value, Apply(s, ev);
            (forall k, p :: p in g.Bits(k) ==> (p in s'.policy(k) <==> p in s'.base(k))) <==> !Robs(s, ev)
  {
    var g, s' := Restoring(s, ev).value, Apply(s, ev);
    hide Grant.Bits;
    forall k, p | p in g.Bits(k)
      ensures p !in s'.policy(k) && s'.base(k) == s.base(k)
    {
    }
  }

  ghost predicate AlwaysFaithful(s: State, evs: seq<Event>)
    requires IsRun(s, evs)
    decreases |evs|
  {
    Faithful(s) && (evs == [] || AlwaysFaithful(Apply(s, evs[0]), evs[1..]))
  }

  ghost predicate NoneRobbed(s: State, evs: seq<Event>)
    requires IsRun(s, evs)
    decreases |evs|
  {
    evs == [] || (!Robs(s, evs[0]) && NoneRobbed(Apply(s, evs[0]), evs[1..]))
  }

  lemma StepFaithful(s: State, ev: Event)
    requires Faithful(s) && Enabled(s, ev)
    ensures Faithful(Apply(s, ev)) <==> !Robs(s, ev)
  {
    var g, s' := Restoring(s, ev), Apply(s, ev);
    hide Grant.Bits;
    if Robs(s, ev) {
      var k, p :| p in g.value.Bits(k) && p in s.base(k);
      assert p !in s'.policy(k) && p in s'.base(k);
    }
  }

  /** In any run, with any batches: the policy keeps all that the base accounts for exactly as long as no restore takes
    * back a bit that a batch has allowed meanwhile. */
  lemma {:induction false} FaithfulIff(s: State, evs: seq<Event>)
    requires Faithful(s) && IsRun(s, evs)
    ensures AlwaysFaithful(s, evs) <==> NoneRobbed(s, evs)
    decreases |evs|
  {
    hide Faithful, Robs;
    if evs != [] {
      StepFaithful(s, evs[0]);
      var t := Apply(s, evs[0]);
      if !Robs(s, evs[0]) {
        FaithfulIff(t, evs[1..]);
      } else {
        assert !AlwaysFaithful(t, evs[1..]);
      }
    }
  }

  /** An exact policy has no bit on loan that the base accounts for, so its restores rob nothing. */
  lemma ExactRobsNothing(s: State, ev: Event)
    requires InvPolicy(s) && Enabled(s, ev)
    ensures !Robs(s, ev)
  {
    if Restoring(s, ev).Some? {
      var g, h := Restoring(s, ev).value, RestoredHolder(s, ev);
      forall k
        ensures g.Bits(k) !! s.base(k)
      {
        assert g.Bits(k) == HeldBits(s, h, k);
      }
    }
  }

  lemma {:induction false} NoClashNoRob(s: State, evs: seq<Event>)
    requires Inv(s) && InvPolicy(s) && IsRun(s, evs) && NoClash(s, evs)
    ensures NoneRobbed(s, evs)
    decreases |evs|
  {
    hide Inv, InvPolicy, Clash, Robs;
    if evs != [] {
      StepKeeps(s, evs[0]);
      StepPolicy(s, evs[0]);
      ExactRobsNothing(s, evs[0]);
      NoClashNoRob(Apply(s, evs[0]), evs[1..]);
    }
  }

  lemma StepAccounted(s: State, ev: Event)
    requires Inv(s) && Accounted(s) && Enabled(s, ev)
    ensures Accounted(Apply(s, ev))
  {
    var s' := Apply(s, ev);
    NextUnused(s);
    forall k
      ensures s'.stuck(k) !! s'.base(k) && s'.stuck(k) <= s'.policy(k)
      ensures s'.policy(k) <= s'.base(k) + s'.stuck(k) + Granted(s', k)
    {
      assert s.stuck(k) !! s.base(k) && s.stuck(k) <= s.policy(k);
      forall p | p in s'.policy(k)
        ensures p in s'.base(k) + s'.stuck(k) + Granted(s', k)
      {
        StillAccounted(s, ev, k, p);
      }
    }
  }

  lemma {:induction false} AfterAccounted(s: State, evs: seq<Event>)
    requires Inv(s) && Accounted(s) && IsRun(s, evs)
    ensures Accounted(After(s, evs))
    decreases |evs|
  {
    hide Inv, Accounted;
    if evs != [] {
      StepKeeps(s, evs[0]);
      StepAccounted(s, evs[0]);
      AfterAccounted(Apply(s, evs[0]), evs[1..]);
    }
  }

  /** For example, a batch allows a bit that is on loan; the restore takes it away again. */
  lemma BatchLostAtRestore()
    ensures var g, key := Grant(1, 2, 0, 3, {5}, {}), AvKey(1, 2, 3, Allowed);
            var evs := [Allow(0, g)] + [Patch(k => if k == key then {5} else {}, k => {}), GiveBack(0, true)];
            && IsRun(Init(k => {}), evs) && Quiet(After(Init(k => {}), evs))
            && After(Init(k => {}), evs).base(key) == {5} && After(Init(k => {}), evs).policy(key) == {}
  {
    var g, key := Grant(1, 2, 0, 3, {5}, {}), AvKey(1, 2, 3, Allowed);
    var patch := Patch(k => if k == key then {5} else {}, k => {});
    var s := Init(k => {});
    var s1 := Apply(s, Allow(0, g));
    var s2 := Apply(s1, patch);
    var s3 := Apply(s2, GiveBack(0, true));
    assert IsRun(s3, []) && After(s3, []) == s3;
    OneMore(s2, GiveBack(0, true), []);
    OneMore(s1, patch, [GiveBack(0, true)]);
    OneMore(s, Allow(0, g), [patch, GiveBack(0, true)]);
  }

  lemma OneMore(s: State, ev: Event, evs: seq<Event>)
    requires Enabled(s, ev) && IsRun(Apply(s, ev), evs)
    ensures IsRun(s, [ev] + evs) && After(s, [ev] + evs) == After(Apply(s, ev), evs)
  {
    assert ([ev] + evs)[1..] == evs;
  }

  /** A bit on loan stays on loan unless its record is restored. */
  lemma GrantedStep(s: State, ev: Event, k: AvKey, p: PermValue)
    requires Inv(s) && Enabled(s, ev) && p in Granted(s, k)
    ensures p in Granted(Apply(s, ev), k) || (Restoring(s, ev).Some? && p in Restoring(s, ev).value.Bits(k))
  {
    var s' := Apply(s, ev);
    var h :| p in HeldBits(s, h, k);
    var h' := if ev.Publish? && h == ByCall(ev.c) then ByEntry(s.table.next) else h;
    NextUnused(s);
    HeldStep(s, ev, h', k);
    if p in HeldBits(s', h', k) {
      assert p in Granted(s', k);
    }
  }

  lemma AllowedIsGranted(s: State, ev: Event, k: AvKey, p: PermValue)
    requires Inv(s) && Enabled(s, ev) && ev.Allow? && p in ev.g.Bits(k)
    ensures p in Granted(Apply(s, ev), k)
  {
    HeldStep(s, ev, ByCall(ev.c), k);
    assert p in HeldBits(Apply(s, ev), ByCall(ev.c), k);
  }

  /** What a step does to one entry of the policy, of its base, and of what is left behind. */
  lemma PolicyStep(s: State, ev: Event, k: AvKey)
    requires Enabled(s, ev)
    ensures var s' := Apply(s, ev);
            if ev.Patch? then
              && s'.policy(k) == s.policy(k) - ev.off(k) + ev.on(k) && s'.base(k) == s.base(k) - ev.off(k) + ev.on(k)
              && s'.stuck(k) == s.stuck(k) - ev.off(k) - ev.on(k)
            else if Restoring(s, ev).Some? then
              var bits := Restoring(s, ev).value.Bits(k);
              && s'.base(k) == s.base(k)
              && s'.policy(k) == s.policy(k) - (if ev.ok then bits else {})
              && s'.stuck(k) == if ev.ok then s.stuck(k) - bits else s.stuck(k) + (bits * s.policy(k) - s.base(k))
            else
              && s'.base(k) == s.base(k) && s'.stuck(k) == s.stuck(k)
              && s'.policy(k) == s.policy(k) + if ev.Allow? then ev.g.Bits(k) else {}
  {
    hide Grant.Bits;
  }

  lemma StillAccounted(s: State, ev: Event, k: AvKey, p: PermValue)
    requires Inv(s) && Accounted(s) && Enabled(s, ev) && p in Apply(s, ev).policy(k)
    ensures var s' := Apply(s, ev);
            p in s'.base(k) + s'.stuck(k) + Granted(s', k)
  {
    assert s.policy(k) <= s.base(k) + s.stuck(k) + Granted(s, k);
    hide *;
    PolicyStep(s, ev, k);
    if p in Granted(s, k) {
      GrantedStep(s, ev, k, p);
    }
    if ev.Allow? && p in ev.g.Bits(k) {
      AllowedIsGranted(s, ev, k, p);
    }
  }

  /** How often an id occurs in a history. */
  ghost function Times(history: seq<EntryId>, e: EntryId): nat {
    multiset(history)[e]
  }

  lemma {:induction false} NoDupTimes(history: seq<EntryId>, e: EntryId)
    requires NoDup(history)
    ensures Times(history, e) == if e in history then 1 else 0
  {
    if history != [] {
      var n := |history| - 1;
      assert history == history[..n] + [history[n]];
      NoDupTimes(history[..n], e);
    }
  }

  /** Whichever of timeout, explicit restore and replacement wins, every published record is passed to
    * restore at most once and freed at most once, freed only after its restore, and it has been
    * restored exactly once and freed exactly once as soon as it is no longer allocated. */
  lemma RestoredAndFreedOnce(base: AvKey -> Av, evs: seq<Event>, e: EntryId)
    requires IsRun(Init(base), evs)
    ensures var s := After(Init(base), evs);
            && Times(s.restored, e) <= 1
            && Times(s.freed, e) <= Times(s.restored, e)
            && (e in s.table.entries ==> Times(s.freed, e) == 0)
            && (e in s.table.entries ==>
                  (Times(s.restored, e) == 0 <==> s.table.entries[e].state.HasAdditions()))
            && (e < s.table.next && e !in s.table.entries ==> Times(s.restored, e) == Times(s.freed, e) == 1)
  {
    ReachableInv(base, evs);
    var s := After(Init(base), evs);
    NoDupTimes(s.restored, e);
    NoDupTimes(s.freed, e);
    assert HistoryOk(s, e) && RecordOk(s, e);
  }

  /** The pending list never holds two records of one process, and every listed record's timer is queued or running,
    * or about to be queued by the call that published it. */
  lemma OnePendingPerProcess(base: AvKey -> Av, evs: seq<Event>, i: nat, j: nat)
    requires IsRun(Init(base), evs)
    requires i < j < |After(Init(base), evs).table.list|
    ensures var s := After(Init(base), evs);
            var t := s.table;
            && t.list[i] in t.entries && t.list[j] in t.entries
            && t.entries[t.list[i]].tgid != t.entries[t.list[j]].tgid
            && (t.entries[t.list[i]].timer in {Armed, Running} || exists c :: ArmingAt(s, c, t.list[i]))
  {
    ReachableInv(base, evs);
    var s := After(Init(base), evs);
    assert EntryOk(s, s.table.list[i]) && EntryOk(s, s.table.list[j]);
    assert ListPairOk(s, s.table.list[i], s.table.list[j]);
  }

  /** A thread that drains entries only ever works on allocated ones that no other thread drains, that are off the
    * pending list, and that no timer body will restore. */
  lemma DrainsAlone(base: AvKey -> Av, evs: seq<Event>, c: CallId, e: EntryId)
    requires IsRun(Init(base), evs)
    requires var s := After(Init(base), evs);
             c in s.calls && e in s.calls[c].Todo()
    ensures var s := After(Init(base), evs);
            && e in s.table.entries && !s.table.entries[e].pending && e !in s.table.list
            && s.table.entries[e].timer in {Idle, Armed, Running}
            && (forall d :: d in s.calls && e in s.calls[d].Todo() ==> d == c)
  {
    ReachableInv(base, evs);
    var s := After(Init(base), evs);
    assert CallOk(s, c) && EntryOk(s, e);
    forall d | d in s.calls && e in s.calls[d].Todo()
      ensures d == c
    {
      assert CallOk(s, d);
    }
  }

  // ---------- every call and timer can finish ----------

  /** The steps of calls and timers already under way, with restores that succeed; not new grants, publications,
    * restores or batches. */
  predicate Internal(ev: Event) {
    !ev.Allow? && !ev.Publish? && !ev.Release? && !ev.Patch? && Succeeds(ev)
  }

  ghost predicate InternalRun(s: State, evs: seq<Event>) {
    IsRun(s, evs) && forall i :: 0 <= i < |evs| ==> Internal(evs[i])
  }

  lemma RunCons(s: State, ev: Event, evs: seq<Event>)
    requires Enabled(s, ev) && Internal(ev) && InternalRun(Apply(s, ev), evs)
    ensures InternalRun(s, [ev] + evs) && After(s, [ev] + evs) == After(Apply(s, ev), evs)
  {
    assert ([ev] + evs)[1..] == evs;
  }

  lemma {:induction false} RunConcat(s: State, a: seq<Event>, b: seq<Event>)
    requires InternalRun(s, a) && InternalRun(After(s, a), b)
    ensures InternalRun(s, a + b) && After(s, a + b) == After(After(s, a), b)
    decreases |a|
  {
    if a == [] {
      assert a + b == b;
    } else {
      assert forall i :: 0 <= i < |a[1..]| ==> a[1..][i] == a[i + 1];
      RunConcat(Apply(s, a[0]), a[1..], b);
      RunCons(s, a[0], a[1..] + b);
      assert a + b == [a[0]] + (a[1..] + b);
    }
  }

  function TimerRank(t: Timer): nat {
    match t
    case Idle => 0
    case Restored => 1
    case Claimed => 2
    case Running => 3
    case Armed => 4
  }

  /** The timer of an entry that no call owns, and that has been queued, can run to the entry's free. */
  lemma {:induction false} FinishTimer(s: State, e: EntryId) returns (evs: seq<Event>)
    requires Inv(s) && e in s.table.entries && e in s.owner && !s.owner[e].OfCall?
    requires forall c :: !ArmingAt(s, c, e)
    ensures InternalRun(s, evs) && Inv(After(s, evs))
    ensures After(s, evs).table.entries.Keys == s.table.entries.Keys - {e}
    ensures After(s, evs).calls == s.calls
    decreases TimerRank(s.table.entries[e].timer)
  {
    assert EntryOk(s, e);
    var ev := match s.table.entries[e].timer
              case Armed => Fire(e)
              case Running => TimeoutLock(e)
              case Claimed => TimeoutRestore(e, true)
              case Restored => TimeoutFree(e)
              case Idle => assert false; Fire(e);
    StepKeeps(s, ev);
    StaysUnowned(s, ev, e);
    var rest: seq<Event> := [];
    if !ev.TimeoutFree? {
      rest := FinishTimer(Apply(s, ev), e);
    }
    RunCons(s, ev, rest);
    evs := [ev] + rest;
  }

  lemma StaysUnowned(s: State, ev: Event, e: EntryId)
    requires Inv(s) && e in s.table.entries && e in s.owner && !s.owner[e].OfCall? && Enabled(s, ev)
    requires ev == Fire(e) || ev == TimeoutLock(e) || ev == TimeoutRestore(e, true) || ev == TimeoutFree(e)
    ensures Apply(s, ev).calls == s.calls && forall c :: ArmingAt(Apply(s, ev), c, e) <==> ArmingAt(s, c, e)
    ensures !ev.TimeoutFree? ==>
              var t := Apply(s, ev);
              && e in t.table.entries && e in t.owner && !t.owner[e].OfCall?
              && TimerRank(t.table.entries[e].timer) < TimerRank(s.table.entries[e].timer)
  {
    assert EntryOk(s, e);
  }

  function HeadRank(s: State, c: CallId): nat
    requires c in s.calls && s.calls[c].Draining?
  {
    match s.calls[c].pc
    case AtFree => 0
    case AtRestore => 1
    case AtCancel =>
      if s.calls[c].todo != [] && TimerAt(s, s.calls[c].todo[0], Running) then 3 else 2
  }

  /** The calls that are about to queue a timer. */
  function ArmingCalls(s: State): set<CallId> {
    set c | c in s.calls && s.calls[c].Arming?
  }

  /** A draining call can always finish its head entry: a running timer body lets go of the lock and
    * ends, so cancel_delayed_work_sync does not wait forever. */
  lemma {:induction false} FinishHead(s: State, c: CallId) returns (evs: seq<Event>)
    requires Inv(s) && c in s.calls && s.calls[c].Draining? && s.calls[c].todo != []
    ensures InternalRun(s, evs) && Inv(After(s, evs))
    ensures After(s, evs).table.entries.Keys == s.table.entries.Keys - {s.calls[c].todo[0]}
    ensures s.calls[c].todo[0] in s.table.entries
    ensures After(s, evs).calls.Keys == s.calls.Keys
    ensures ArmingCalls(After(s, evs)) == ArmingCalls(s)
    decreases HeadRank(s, c)
  {
    var e := s.calls[c].todo[0];
    assert CallOk(s, c) && EntryOk(s, e);
    var ev := match s.calls[c].pc
              case AtFree => FreeHead(c)
              case AtRestore => RestoreHead(c, true)
              case AtCancel => if TimerAt(s, e, Running) then TimeoutLock(e) else Cancel(c);
    StepKeeps(s, ev);
    var rest: seq<Event> := [];
    if !ev.FreeHead? {
      rest := FinishHead(Apply(s, ev), c);
    }
    RunCons(s, ev, rest);
    evs := [ev] + rest;
  }

  ghost predicate Quiet(s: State) {
    s.calls == map[] && s.table.entries == map[]
  }

  /** What is left to finish. */
  ghost function Remaining(s: State): nat {
    |s.table.entries.Keys| + |s.calls.Keys| + |ArmingCalls(s)|
  }

  /** A call that is about to queue a timer, holds a grant or has nothing left to drain can go on or end. */
  lemma EndCall(s: State, c: CallId) returns (evs: seq<Event>)
    requires Inv(s) && c in s.calls && (s.calls[c].Arming? || s.calls[c].Todo() == [])
    ensures InternalRun(s, evs) && Inv(After(s, evs))
    ensures Remaining(After(s, evs)) < Remaining(s)
  {
    var ev := match s.calls[c]
              case Holding(_) => GiveBack(c, true)
              case Arming(_, _) => Arm(c)
              case Draining(_, _, _) => Return(c);
    StepKeeps(s, ev);
    RunCons(s, ev, []);
    evs := [ev] + [];
    var t := Apply(s, ev);
    if ev.Arm? {
      assert ArmingCalls(t) == ArmingCalls(s) - {c} && t.calls.Keys == s.calls.Keys;
      assert t.table.entries.Keys == s.table.entries.Keys;
    } else {
      assert t.calls.Keys == s.calls.Keys - {c} && ArmingCalls(t) == ArmingCalls(s);
    }
  }

  /** Something can be finished unless all is quiet. */
  lemma FinishOne(s: State) returns (evs: seq<Event>)
    requires Inv(s) && !Quiet(s)
    ensures InternalRun(s, evs) && Inv(After(s, evs))
    ensures Remaining(After(s, evs)) < Remaining(s)
  {
    if c :| c in s.calls && (s.calls[c].Arming? || s.calls[c].Todo() == []) {
      evs := EndCall(s, c);
    } else if c :| c in s.calls {
      evs := FinishHead(s, c);
    } else {
      var e :| e in s.table.entries;
      assert EntryOk(s, e);
      evs := FinishTimer(s, e);
    }
  }

  /** From every reachable state the calls and timers under way can all finish, and then every record has been
    * passed to restore and freed once, and the policy, if it was exact, is the base policy again but for what failed
    * restores had left behind before. */
  lemma {:induction false} CanDrain(s: State) returns (evs: seq<Event>)
    requires Inv(s)
    ensures InternalRun(s, evs) && Quiet(After(s, evs))
    ensures var t := After(s, evs);
            && (InvPolicy(s) ==> forall k :: t.policy(k) == s.base(k) + s.stuck(k))
            && (forall e: EntryId :: e < t.table.next ==> Times(t.restored, e) == Times(t.freed, e) == 1)
  {
    evs := Finish(s);
    var t := After(s, evs);
    Quiescent(t);
    NoBatchNoClash(s, evs);
    if InvPolicy(s) {
      ExactIff(s, evs);
      QuietGrantsNothing(t);
      forall k
        ensures t.policy(k) == s.base(k) + s.stuck(k)
      {
        StuckKept(s, evs, k);
      }
    }
  }

  lemma {:induction false} Finish(s: State) returns (evs: seq<Event>)
    requires Inv(s)
    ensures InternalRun(s, evs) && Quiet(After(s, evs)) && Inv(After(s, evs))
    decreases Remaining(s)
  {
    if Quiet(s) {
      return [];
    }
    hide Inv, Quiet, Remaining;
    var first := FinishOne(s);
    var rest := Finish(After(s, first));
    RunConcat(s, first, rest);
    evs := first + rest;
  }

  lemma QuietGrantsNothing(s: State)
    requires Quiet(s)
    ensures forall k :: Granted(s, k) == {}
  {
    forall h, k
      ensures HeldBits(s, h, k) == {}
    {
    }
  }

  lemma Quiescent(s: State)
    requires Inv(s) && Quiet(s)
    ensures forall e: EntryId :: e < s.table.next ==> Times(s.restored, e) == Times(s.freed, e) == 1
  {
    forall e: EntryId | e < s.table.next
      ensures Times(s.restored, e) == Times(s.freed, e) == 1
    {
      assert HistoryOk(s, e);
      NoDupTimes(s.restored, e);
      NoDupTimes(s.freed, e);
    }
  }
}
