/** The access-vector table of a SELinux policy database and the wildcard rule edits on it.
  *
  * The table is a hash table of chains. A node is addressed by its chain and its position there,
  * which stands for the node pointer of the C code. Only access-vector nodes (allow, auditallow,
  * auditdeny) are modelled.
  */
module AvTab {
  import opened Basics

  datatype Effect = Allowed | AuditAllow | AuditDeny

  datatype AvKey = AvKey(source: U16, target: U16, cls: U16, effect: Effect)

  /** A permission's value: permission v is bit v - 1 of a 32-bit access vector. */
  type PermValue = v: int | 1 <= v <= 32 witness 1

  /** A 32-bit access vector, as the set of its bits: `|` is union and `& ~` is difference. */
  type Av = set<PermValue>

  datatype AvNode = AvNode(key: AvKey, data: Av)

  type Chain = seq<AvNode>

  datatype TypeDatum = TypeDatum(name: string, value: U16, attribute: bool)

  datatype ClassDatum = ClassDatum(name: string, value: U16,
                                   permissions: map<string, PermValue>,
                                   common: map<string, PermValue>)

  /** `~0U` */
  const ALL_BITS: Av := set v: PermValue | 1 <= v <= 32

  /** The bits a rule names: one permission's, or all 32 when the permission is omitted. */
  function Mask(perm: Option<PermValue>): Av {
    match perm
    case Some(v) => {v}
    case None => ALL_BITS
  }

  /** The value an absent node stands for. */
  function Neutral(effect: Effect): Av {
    if effect == AuditDeny then ALL_BITS else {}
  }

  /** Whether an omitted type ranges over all types (true) or over attributes only (false). */
  predicate StripAv(effect: Effect, invert: bool) {
    (effect == AuditDeny) == !invert
  }

  /** The meaning of one rule edit on one table entry. */
  function Edit(cur: Option<Av>, effect: Effect, invert: bool, mask: Av): Option<Av> {
    if invert && cur.None? then
      None
    else
      var v := cur.GetOr(Neutral(effect));
      var w := if invert then v - mask else v + mask;
      if w == Neutral(effect) then None else Some(w)
  }

  lemma EditIdempotent(cur: Option<Av>, effect: Effect, invert: bool, mask: Av)
    ensures Edit(Edit(cur, effect, invert, mask), effect, invert, mask) == Edit(cur, effect, invert, mask)
  {
    var v := cur.GetOr(Neutral(effect));
    assert (v - mask) - mask == v - mask;
    assert (v + mask) + mask == v + mask;
    assert v + mask == Neutral(effect) ==> Neutral(effect) + mask == Neutral(effect);
  }

  // ---------- chains and tables as values ----------

  ghost predicate Unique(c: Chain) {
    forall i, j :: 0 <= i < j < |c| ==> c[i].key != c[j].key
  }

  ghost predicate HasKey(c: Chain, k: AvKey) {
    exists i :: 0 <= i < |c| && c[i].key == k
  }

  /** The data stored under k in a chain. */
  ghost function Find(c: Chain, k: AvKey): Option<Av> {
    if HasKey(c, k) then
      var i :| 0 <= i < |c| && c[i].key == k;
      Some(c[i].data)
    else
      None
  }

  /** The chain a key hashes to. */
  ghost function Slot(t: seq<Chain>, hash: AvKey -> nat, k: AvKey): nat
    requires |t| > 0
  {
    hash(k) % |t|
  }

  ghost function Look(t: seq<Chain>, hash: AvKey -> nat, k: AvKey): Option<Av>
    requires |t| > 0
  {
    Find(t[Slot(t, hash, k)], k)
  }

  ghost predicate WfTable(t: seq<Chain>, hash: AvKey -> nat) {
    && |t| > 0
    && (forall i :: 0 <= i < |t| ==> Unique(t[i]))
    && (forall i, j :: 0 <= i < |t| && 0 <= j < |t[i]| ==> Slot(t, hash, t[i][j].key) == i)
  }

  /** The number of nodes in the table. */
  function NodeCount(t: seq<Chain>): (n: nat)
    ensures t == [] ==> n == 0
  {
    if t == [] then 0 else NodeCount(t[..|t| - 1]) + |t[|t| - 1]|
  }

  lemma {:induction false} NodeCountUpdate(t: seq<Chain>, i: nat, c: Chain)
    requires i < |t|
    ensures NodeCount(t[i := c]) == NodeCount(t) - |t[i]| + |c|
  {
    var n := |t| - 1;
    if i == n {
      assert t[i := c][..n] == t[..n];
    } else {
      assert t[i := c][..n] == t[..n][i := c];
      NodeCountUpdate(t[..n], i, c);
    }
  }

  lemma FindAt(c: Chain, i: nat)
    requires Unique(c) && i < |c|
    ensures Find(c, c[i].key) == Some(c[i].data)
  {
  }

  lemma FindReplaced(c: Chain, i: nat, d: Av)
    requires Unique(c) && i < |c|
    ensures var c' := c[i := AvNode(c[i].key, d)];
            && Unique(c') && Find(c', c[i].key) == Some(d)
            && forall k :: k != c[i].key ==> Find(c', k) == Find(c, k)
  {
    var c' := c[i := AvNode(c[i].key, d)];
    assert c'[i].key == c[i].key;
    assert forall j :: 0 <= j < |c| ==> c'[j].key == c[j].key;
    FindAt(c', i);
    forall k | k != c[i].key
      ensures Find(c', k) == Find(c, k)
    {
      SameFind(c, c', k);
    }
  }

  /** Two chains that hold the same nodes with key k agree on k. */
  lemma SameFind(c: Chain, c': Chain, k: AvKey)
    requires Unique(c) && Unique(c')
    requires forall i :: 0 <= i < |c| && c[i].key == k ==> c[i] in c'
    requires forall i :: 0 <= i < |c'| && c'[i].key == k ==> c'[i] in c
    ensures Find(c', k) == Find(c, k)
  {
    if HasKey(c, k) {
      var i :| 0 <= i < |c| && c[i].key == k;
      var j :| 0 <= j < |c'| && c'[j] == c[i];
      FindAt(c, i);
      FindAt(c', j);
    }
  }

  lemma FindInserted(c: Chain, i: nat, k: AvKey, d: Av)
    requires Unique(c) && i <= |c| && !HasKey(c, k)
    ensures var c' := c[..i] + [AvNode(k, d)] + c[i..];
            && Unique(c') && Find(c', k) == Some(d)
            && forall k' :: k' != k ==> Find(c', k') == Find(c, k')
  {
    var c' := c[..i] + [AvNode(k, d)] + c[i..];
    assert forall j :: 0 <= j < |c'| ==> c'[j] == if j < i then c[j] else if j == i then AvNode(k, d) else c[j - 1];
    FindAt(c', i);
    forall k' | k' != k
      ensures Find(c', k') == Find(c, k')
    {
      assert forall j :: 0 <= j < |c| ==> c[j] == c'[if j < i then j else j + 1];
      SameFind(c, c', k');
    }
  }

  lemma FindRemoved(c: Chain, i: nat)
    requires Unique(c) && i < |c|
    ensures var c' := c[..i] + c[i + 1..];
            && Unique(c') && Find(c', c[i].key) == None
            && forall k :: k != c[i].key ==> Find(c', k) == Find(c, k)
  {
    var c' := c[..i] + c[i + 1..];
    assert forall j :: 0 <= j < |c'| ==> c'[j] == if j < i then c[j] else c[j + 1];
    forall k | k != c[i].key
      ensures Find(c', k) == Find(c, k)
    {
      assert forall j :: 0 <= j < |c| && j != i ==> c[j] == c'[if j < i then j else j - 1];
      SameFind(c, c', k);
    }
  }

  /** Replacing one chain of a table changes only the keys of that slot. */
  lemma TableUpdate(t: seq<Chain>, hash: AvKey -> nat, s: nat, c: Chain)
    requires WfTable(t, hash) && s < |t| && Unique(c)
    requires forall j :: 0 <= j < |c| ==> hash(c[j].key) % |t| == s
    ensures WfTable(t[s := c], hash)
    ensures forall k :: Look(t[s := c], hash, k) == if Slot(t, hash, k) == s then Find(c, k) else Look(t, hash, k)
  {
  }
}
