/** AArch64 instruction words: branches to and from a trampoline page, and 64-bit constants. */
module CodePatch {
  import opened Basics
  import opened Bits

  const TWO26 := 0x400_0000
  const TWO64 := 0x1_0000_0000_0000_0000

  // ---- Branches ----

  /** A pointer read as int64_t. */
  function Signed64(x: U64): int {
    if x < TWO64 / 2 then x else x - TWO64
  }

  /** enc_b: the low 26 bits of the offset in words, under the opcode of B. */
  function EncB(from: U64, to: U64): (word: U32)
    ensures 0x1400_0000 <= word < 0x1800_0000
  {
    var off := Signed64(to) - Signed64(from);
    0x1400_0000 + off / 4 % 0x1_0000_0000 % TWO26
  }

  /** Where B (section C6.2 of the Arm Architecture Reference Manual DDI 0487) at address pc goes. */
  function DecodeB(word: U32, pc: U64): Option<U64> {
    if word / TWO26 != 5 then None
    else
      var imm26 := word % TWO26;
      Some((pc + 4 * SignExtend26(imm26)) % TWO64)
  }

  /** The distance from one address to another, the short way round. */
  function Distance(from: U64, to: U64): int {
    var d := (to - from) % TWO64;
    if d < TWO64 / 2 then d else d - TWO64
  }

  predicate Reachable(from: U64, to: U64) {
    Distance(from, to) % 4 == 0 && -0x800_0000 <= Distance(from, to) < 0x800_0000
  }

  /** The one representative of the difference modulo 2^64 in the signed range. */
  lemma DistanceForm(from: U64, to: U64) returns (k: int)
    ensures Distance(from, to) == to - from + k * TWO64 && -1 <= k <= 1
    ensures -TWO64 / 2 <= Distance(from, to) < TWO64 / 2
  {
    var d := if to >= from then to - from else to - from + TWO64;
    assert (to - from) % TWO64 == d;
    k := (if to >= from then 0 else 1) - if d < TWO64 / 2 then 0 else 1;
  }

  /** Adding a signed offset leads to an address exactly when the offset is its distance. */
  lemma DistanceUnique(from: U64, to: U64, b: int)
    requires -TWO64 / 2 <= b < TWO64 / 2
    ensures (from + b) % TWO64 == to <==> b == Distance(from, to)
  {
    var k := DistanceForm(from, to);
    hide Distance;
    var x := from + b;
    var m := if x < 0 then x + TWO64 else if x >= TWO64 then x - TWO64 else x;
    assert x % TWO64 == m;
  }

  /** The imm26 field only depends on the distance. */
  lemma EncBField(from: U64, to: U64)
    ensures EncB(from, to) % TWO26 == Distance(from, to) / 4 % TWO26
  {
    var off, d := Signed64(to) - Signed64(from), Distance(from, to);
    var k := DistanceForm(from, to);
    hide Distance;
    k := (if to < TWO64 / 2 then 0 else -1) - (if from < TWO64 / 2 then 0 else -1) - k;
    assert off == d + k * TWO64;
    DivShift(d, k);
    var words := off / 4;
    assert words == d / 4 + k * (TWO64 / 4);
    ModMod(words);
    ModShift(d / 4, k);
  }

  lemma DivShift(d: int, k: int)
    ensures (d + k * TWO64) / 4 == d / 4 + k * (TWO64 / 4)
  {
    var n := k * (TWO64 / 4);
    assert k * TWO64 == 4 * n;
  }

  lemma ModMod(x: int)
    ensures x % 0x1_0000_0000 % TWO26 == x % TWO26
  {
    var q, r := x / 0x1_0000_0000, x % 0x1_0000_0000;
    assert x == r + TWO26 * (64 * q);
    ModUnique(x, r % TWO26, 64 * q + r / TWO26);
  }

  lemma ModShift(x: int, k: int)
    ensures (x + k * (TWO64 / 4)) % TWO26 == x % TWO26
  {
    ModUnique(x + k * (TWO64 / 4), x % TWO26, x / TWO26 + k * (TWO64 / 4 / TWO26));
  }

  lemma ModUnique(x: int, r: int, q: int)
    requires 0 <= r < TWO26 && x == q * TWO26 + r
    ensures x % TWO26 == r
  {
    assert x / TWO26 == q;
  }

  function SignExtend26(x: int): int
    requires 0 <= x < TWO26
  {
    if x < TWO26 / 2 then x else x - TWO26
  }

  lemma SignExtendExact(x: int)
    ensures SignExtend26(x % TWO26) == x <==> -TWO26 / 2 <= x < TWO26 / 2
  {
    if -TWO26 / 2 <= x < TWO26 / 2 {
      ModUnique(x, if x >= 0 then x else x + TWO26, if x >= 0 then 0 else -1);
    }
  }

  /** A branch goes where it was meant to exactly when the destination is a whole number of instructions away
    * and within 128 MB. */
  lemma BranchExact(from: U64, to: U64)
    ensures DecodeB(EncB(from, to), from) == Some(to) <==> Reachable(from, to)
  {
    var d, word := Distance(from, to), EncB(from, to);
    EncBField(from, to);
    assert word / TWO26 == 5;
    hide Distance, EncB;
    var back := 4 * SignExtend26(word % TWO26);
    DistanceUnique(from, to, back);
    SignExtendExact(d / 4);
    assert back == d <==> Reachable(from, to);
  }

  // ---- The trampoline page ----

  const REACH := 0x780_0000
  const STEP := 0x1_0000
  const HINTS := 2 * (REACH / STEP)

  datatype ExecPage = ExecPage(addr: U64, fileBacked: bool)

  /** What mmap answers to a hint: an address, not always the one asked for, or a failure. */
  type Mapper = U64 -> Option<U64>

  function PageBase(target: U64): U64 {
    target - target % 0x1000
  }

  /** The addresses tried, in order: alternately below and above, further away each time. */
  function HintAt(target: U64, i: nat): U64 {
    var off := STEP * (i / 2 + 1);
    if i % 2 == 0 then (PageBase(target) - off) % TWO64 else (PageBase(target) + off) % TWO64
  }

  /** A hint is taken up by the memory file's mapping, or else by an anonymous one. */
  predicate Taken(hint: U64, memfd: bool, fileMap: Mapper, anonMap: Mapper) {
    (memfd && fileMap(hint) == Some(hint)) || anonMap(hint) == Some(hint)
  }

  /** One attempt at a hint; the second result counts the mappings it leaves behind. */
  method TryHint(hint: U64, memfd: bool, fileMap: Mapper, anonMap: Mapper)
    returns (page: Option<ExecPage>, mapped: nat)
    ensures page == if !Taken(hint, memfd, fileMap, anonMap) then None
                    else Some(ExecPage(hint, memfd && fileMap(hint) == Some(hint)))
    ensures mapped == if page.Some? then 1 else 0
  {
    mapped := 0;
    if memfd {
      var p := fileMap(hint);
      if p.Some? {
        mapped := mapped + 1;
      }
      if p == Some(hint) {
        return Some(ExecPage(hint, true)), mapped;
      }
      if p.Some? {
        mapped := mapped - 1;
      }
    }
    var p := anonMap(hint);
    if p.Some? {
      mapped := mapped + 1;
    }
    if p == Some(hint) {
      return Some(ExecPage(hint, false)), mapped;
    }
    if p.Some? {
      mapped := mapped - 1;
    }
    page := None;
  }

  /** alloc_near: the first hint that is taken up, and no other mapping is left behind. */
  method AllocNear(target: U64, memfd: bool, fileMap: Mapper, anonMap: Mapper)
    returns (page: Option<ExecPage>, ghost i: nat, mapped: nat)
    ensures mapped == if page.Some? then 1 else 0
    ensures i <= HINTS && (page.None? <==> i == HINTS)
    ensures forall j: nat :: j < i ==> !Taken(HintAt(target, j), memfd, fileMap, anonMap)
    ensures page.Some? ==>
      var hint := HintAt(target, i);
      Taken(hint, memfd, fileMap, anonMap) &&
      page.value == ExecPage(hint, memfd && fileMap(hint) == Some(hint))
  {
    hide Taken;
    i, mapped := 0, 0;
    var off := STEP;
    while off <= REACH
      invariant i % 2 == 0 && off == STEP * (i / 2 + 1) && i <= HINTS && mapped == 0
      invariant forall j: nat :: j < i ==> !Taken(HintAt(target, j), memfd, fileMap, anonMap)
    {
      for up := 0 to 2
        invariant i % 2 == up % 2 && off == STEP * ((i - up) / 2 + 1) && up <= i <= HINTS && mapped == 0
        invariant i - up < HINTS - 1
        invariant forall j: nat :: j < i ==> !Taken(HintAt(target, j), memfd, fileMap, anonMap)
      {
        var hint := if up == 1 then (PageBase(target) + off) % TWO64 else (PageBase(target) - off) % TWO64;
        assert hint == HintAt(target, i);
        page, mapped := TryHint(hint, memfd, fileMap, anonMap);
        if page.Some? {
          return;
        }
        i := i + 1;
      }
      off := off + STEP;
    }
    page := None;
  }

  /** How many instructions a hint is away from the target, before wrapping. */
  lemma HintOffset(target: U64, i: nat) returns (words: int)
    requires i < HINTS && target % 4 == 0
    ensures HintAt(target, i) == (target + 4 * words) % TWO64
    ensures -REACH - 0x1000 < 4 * words <= REACH
  {
    var k, low := i / 2 + 1, target % 0x1000;
    words := (if i % 2 == 0 then -0x4000 * k else 0x4000 * k) - low / 4;
    PageWords(target);
    HintRaw(target, i);
    hide HintAt, PageBase;
    assert target + 4 * words == PageBase(target) + if i % 2 == 0 then -STEP * k else STEP * k;
  }

  lemma HintRaw(target: U64, i: nat)
    ensures HintAt(target, i) ==
            (PageBase(target) + if i % 2 == 0 then -STEP * (i / 2 + 1) else STEP * (i / 2 + 1)) % TWO64
  {
    hide PageBase;
  }

  lemma PageWords(target: U64)
    requires target % 4 == 0
    ensures target == PageBase(target) + 4 * (target % 0x1000 / 4)
  {
  }

  /** Both branches reach, wherever near the target the page is; the copied prologue starts coWords words into
    * the page. */
  lemma PageReachable(target: U64, i: nat, coWords: nat)
    requires i < HINTS && target % 4 == 0 && 4 * coWords + 12 <= 0x1000
    ensures Reachable((target + 4) % TWO64, HintAt(target, i))
    ensures Reachable((HintAt(target, i) + 4 * coWords + 8) % TWO64, (target + 8) % TWO64)
  {
    var words := HintOffset(target, i);
    hide HintAt, Reachable;
    ReachableBy(target + 4, words - 1);
    ReachableBy(target + 4 * words + 4 * coWords + 8, -words - coWords);
    ModAdd(target + 4 * words, 4 * coWords + 8);
  }

  lemma ModAdd(x: int, y: int)
    ensures (x % TWO64 + y) % TWO64 == (x + y) % TWO64
  {
    var k := x / TWO64;
    assert x % TWO64 + y == (x + y) - k * TWO64;
    assert (x + y - k * TWO64) / TWO64 == (x + y) / TWO64 - k;
  }

  /** Addresses whose distance, before wrapping, is a few instructions. */
  lemma ReachableBy(rawFrom: int, words: int)
    requires -0x200_0000 <= words < 0x200_0000
    ensures Reachable(rawFrom % TWO64, (rawFrom + 4 * words) % TWO64)
  {
    ModAdd(rawFrom, 4 * words);
    DistanceUnique(rawFrom % TWO64, (rawFrom + 4 * words) % TWO64, 4 * words);
  }

  // ---- Installing a hook ----

  const BTI_C: U32 := 0xD503_245F

  /** Instructions that depend on where they stand. */
  predicate IsPcRel(i: U32) {
    || i / 0x100_0000 % 32 == 16                                       // ADR, ADRP
    || i / 0x400_0000 % 32 == 5                                        // B, BL
    || (i / 0x100_0000 == 0x54 && i / 16 % 2 == 0)                     // B.cond
    || i / 0x200_0000 % 64 == 0x1A                                     // CBZ, CBNZ
    || i / 0x200_0000 % 64 == 0x1B                                     // TBZ, TBNZ
    || (i / 0x800_0000 % 8 == 3 && i / 0x100_0000 % 4 == 0)            // LDR, LDRSW, PRFM literal
  }

  /** The masks and values of the six tests. */
  lemma IsPcRelByMasks(i: U32)
    ensures IsPcRel(i) <==>
            || Matches(i, 0x1F00_0000, 0x1000_0000) || Matches(i, 0x7C00_0000, 0x1400_0000)
            || Matches(i, 0xFF00_0010, 0x5400_0000) || Matches(i, 0x7E00_0000, 0x3400_0000)
            || Matches(i, 0x7E00_0000, 0x3600_0000) || Matches(i, 0x3B00_0000, 0x1800_0000)
  {
    hide *;
    PcRelFields(i);
    Masks();
    FieldMatches(i, 24, 5, 16);
    FieldMatches(i, 26, 5, 5);
    FieldMatches(i, 25, 6, 0x1A);
    FieldMatches(i, 25, 6, 0x1B);
    FieldMatches(i, 24, 8, 0x54);
    FieldMatches(i, 4, 1, 0);
    TwoParts(i, 0xFF, 0x54, 0x10, 0, 24);
    FieldMatches(i, 27, 3, 3);
    FieldMatches(i, 24, 2, 0);
    TwoParts(i, 7, 3, 0x300_0000, 0, 27);
  }

  /** The same tests on bit fields. */
  lemma PcRelFields(i: U32)
    ensures IsPcRel(i) <==>
            || Field(i, 24, 5) == 16 || Field(i, 26, 5) == 5 || (Field(i, 24, 8) == 0x54 && Field(i, 4, 1) == 0)
            || Field(i, 25, 6) == 0x1A || Field(i, 25, 6) == 0x1B || (Field(i, 27, 3) == 3 && Field(i, 24, 2) == 0)
  {
    Masks();
    hide Power;
    assert i / 0x100_0000 == i / 0x100_0000 % 0x100;
  }

  /** Powers of two, and masks, as numbers. */
  lemma Masks()
    ensures Power(2, 1) == 2 && Power(2, 2) == 4 && Power(2, 3) == 8 && Power(2, 4) == 16 && Power(2, 5) == 32
    ensures Power(2, 6) == 64 && Power(2, 8) == 0x100 && Power(2, 24) == 0x100_0000 && Power(2, 25) == 0x200_0000
    ensures Power(2, 26) == 0x400_0000 && Power(2, 27) == 0x800_0000
    ensures Mask(24, 5) == 0x1F00_0000 && Mask(26, 5) == 0x7C00_0000 && Mask(25, 6) == 0x7E00_0000
    ensures Mask(24, 8) == 0xFF00_0000 && Mask(4, 1) == 0x10 && Mask(27, 3) == 0x3800_0000
    ensures Mask(24, 2) == 0x300_0000
  {
    assert Power(2, 8) == 0x100;
    assert Power(2, 12) == 0x1000;
    assert Power(2, 16) == 0x1_0000;
    assert Power(2, 20) == 0x10_0000;
    assert Power(2, 24) == 0x100_0000;
    hide Power;
  }

  /** install. code[at] and code[at + 1] are the words at target; tramp is what the page holds from word coWords
    * on; ret is the address of that copy. pwriteOk and patchOk say whether writing the memory file and patching
    * the target succeed. */
  method InstallHook(target: U64, code: array<U32>, at: nat, coWords: nat, memfd: bool, fileMap: Mapper,
                     anonMap: Mapper, pwriteOk: bool, patchOk: bool)
    returns (ret: Option<U64>, page: Option<ExecPage>, tramp: seq<U32>, mapped: nat)
    requires at + 1 < code.Length && target % 4 == 0 && 4 * coWords + 12 <= 0x1000
    modifies code
    ensures ret.None? ==> code[..] == old(code[..]) && mapped == if page.Some? && page.value.addr == 0 then 1 else 0
    ensures ret.Some? ==>
      && page.Some? && page.value.addr != 0 && mapped == 1
      && !IsPcRel(old(code[at])) && !IsPcRel(old(code[at + 1]))
      && |tramp| == 3 && tramp[..2] == old(code[at..at + 2])
      && ret.value == (page.value.addr + 4 * coWords) % TWO64
      && code[..at] == old(code[..at]) && code[at + 2..] == old(code[at + 2..]) && code[at] == BTI_C
      && DecodeB(code[at + 1], (target + 4) % TWO64) == Some(page.value.addr)
      && DecodeB(tramp[2], (page.value.addr + 4 * coWords + 8) % TWO64) == Some((target + 8) % TWO64)
    ensures ret.Some? <==>
      page.Some? && page.value.addr != 0 && patchOk && (page.value.fileBacked ==> pwriteOk)
    ensures page.None? && !IsPcRel(old(code[at])) && !IsPcRel(old(code[at + 1])) ==>
      forall i: nat :: i < HINTS ==> !Taken(HintAt(target, i), memfd, fileMap, anonMap)
  {
    hide EncB, DecodeB, HintAt, Reachable, Taken, IsPcRel;
    ret, page, tramp, mapped := None, None, [], 0;
    if IsPcRel(code[at]) || IsPcRel(code[at + 1]) {
      return;
    }
    ghost var i;
    page, i, mapped := AllocNear(target, memfd, fileMap, anonMap);
    if page.None? {
      return;
    }
    var base := page.value.addr;
    if base == 0 {
      return;
    }
    PageReachable(target, i, coWords);
    var from := (base + 4 * coWords + 8) % TWO64;
    BranchExact(from, (target + 8) % TWO64);
    BranchExact((target + 4) % TWO64, base);
    tramp := [code[at], code[at + 1], EncB(from, (target + 8) % TWO64)];
    if page.value.fileBacked && !pwriteOk {
      mapped := mapped - 1;
      return;
    }
    if !patchOk {
      mapped := mapped - 1;
      return;
    }
    code[at], code[at + 1] := BTI_C, EncB((target + 4) % TWO64, base);
    ret := Some((base + 4 * coWords) % TWO64);
  }

  /** A hooked function cannot be hooked again: its second word is now a branch. */
  lemma HookedOnce(from: U64, to: U64)
    ensures IsPcRel(EncB(from, to)) && !IsPcRel(BTI_C)
  {
    var w := EncB(from, to);
    assert w / TWO26 == 5;
  }

  // ---- Constants ----

  /** Bits 5 to 20 of a word replaced. */
  function WithImm16(word: U32, imm: U16): (r: U32) {
    word / 0x20_0000 * 0x20_0000 + imm * 32 + word % 32
  }

  function Imm16(word: U32): U16 {
    word / 32 % 0x1_0000
  }

  /** (val >> (16 * i)) & 0xffff, shifting by 16 at a time. */
  function Part(val: U64, i: nat): U16
    decreases i
  {
    if i == 0 then val % 0x1_0000 else Part(val / 0x1_0000, i - 1)
  }

  /** imm << (16 * i) */
  function Shifted(imm: U16, i: nat): U64
    requires i < 4
  {
    match i
    case 0 => imm
    case 1 => imm * 0x1_0000
    case 2 => imm * 0x1_0000_0000
    case _ => imm * 0x1_0000_0000_0000
  }

  /** MOVZ (64-bit) with LSL #(16 * i), and MOVK likewise: the top eleven bits of the word. */
  predicate IsMovz(word: U32, i: nat) {
    i < 4 && word / 0x20_0000 == 0x694 + i
  }

  predicate IsMovk(word: U32, i: nat) {
    i < 4 && word / 0x20_0000 == 0x794 + i
  }

  /** What register number word % 32 holds after the instruction, if it held x before. */
  function Execute(word: U32, x: U64): Option<U64> {
    var op := word / 0x20_0000;
    if 0x694 <= op <= 0x697 then
      Some(Shifted(Imm16(word), op - 0x694))
    else if 0x794 <= op <= 0x797 then
      PartsSum(x);
      Some(x - Shifted(Part(x, op - 0x794), op - 0x794) + Shifted(Imm16(word), op - 0x794))
    else None
  }

  lemma PartStep(x: U64, i: nat)
    ensures Part(x, 0) == x % 0x1_0000 && x == Part(x, 0) + 0x1_0000 * (x / 0x1_0000)
    ensures i > 0 ==> Part(x, i) == Part(x / 0x1_0000, i - 1)
  {
  }

  lemma ShiftedSum(p: U16, q: U16, r: U16, s: U16)
    ensures Shifted(p, 0) + Shifted(q, 1) + Shifted(r, 2) + Shifted(s, 3) ==
            p + 0x1_0000 * (q + 0x1_0000 * (r + 0x1_0000 * s))
  {
  }

  lemma PartsSum(x: U64)
    ensures x == Shifted(Part(x, 0), 0) + Shifted(Part(x, 1), 1) + Shifted(Part(x, 2), 2) + Shifted(Part(x, 3), 3)
  {
    hide *;
    var a: U64 := x / 0x1_0000;
    var b: U64 := a / 0x1_0000;
    var c: U64 := b / 0x1_0000;
    PartStep(x, 1);
    PartStep(x, 2);
    PartStep(x, 3);
    PartStep(a, 1);
    PartStep(a, 2);
    PartStep(b, 1);
    PartStep(c, 0);
    ShiftedSum(Part(x, 0), Part(a, 0), Part(b, 0), Part(c, 0));
  }

  /** The register's value after all the words, from the first on. */
  function Run(words: seq<U32>, x: U64): Option<U64> {
    if words == [] then Some(x)
    else match Execute(words[0], x)
      case Some(y) => Run(words[1..], y)
      case None => None
  }

  /** Only the immediate changes. */
  lemma WithImm16Fields(word: U32, imm: U16)
    ensures Imm16(WithImm16(word, imm)) == imm
    ensures WithImm16(word, imm) / 0x20_0000 == word / 0x20_0000 && WithImm16(word, imm) % 32 == word % 32
  {
  }

  /** zp_patch_imm64 */
  method PatchImm64(insn: array<U32>, at: nat, val: U64)
    requires at + 4 <= insn.Length
    modifies insn
    ensures insn[..at] == old(insn[..at]) && insn[at + 4..] == old(insn[at + 4..])
    ensures forall k :: at <= k < at + 4 ==> insn[k] == WithImm16(old(insn[k]), Part(val, k - at))
  {
    hide WithImm16, Part;
    for i := 0 to 4
      invariant insn[..at] == old(insn[..at]) && insn[at + 4..] == old(insn[at + 4..])
      invariant forall k :: at <= k < at + i ==> insn[k] == WithImm16(old(insn[k]), Part(val, k - at))
      invariant forall k :: at + i <= k < at + 4 ==> insn[k] == old(insn[k])
    {
      insn[at + i] := WithImm16(insn[at + i], Part(val, i));
    }
  }

  /** A MOVK over a value whose part number i is still zero adds its immediate there. */
  lemma MovkAdds(word: U32, i: nat, x: U64, imm: U16)
    requires IsMovk(word, i) && Imm16(word) == imm && Part(x, i) == 0
    ensures Execute(word, x) == Some(x + Shifted(imm, i))
  {
  }

  /** A value below the place of part number i has zeros there. */
  lemma PartZero(x: U64, i: nat)
    requires 0 < i < 4 && x < Shifted(1, i)
    ensures Part(x, i) == 0
  {
    if i > 1 {
      PartZero(x / 0x1_0000, i - 1);
    }
  }

  /** Over a MOVZ and three MOVKs of one register, the patched words put exactly the value there, whatever the
    * register held, and keep their opcodes and register. */
  lemma PatchedValue(words: seq<U32>, val: U64, x: U64)
    requires |words| == 4
    requires IsMovz(words[0], 0) && IsMovk(words[1], 1) && IsMovk(words[2], 2) && IsMovk(words[3], 3)
    ensures var patched := seq(4, i requires 0 <= i < 4 => WithImm16(words[i], Part(val, i)));
            && (forall i :: 0 <= i < 4 ==> patched[i] / 0x20_0000 == words[i] / 0x20_0000
                                           && patched[i] % 32 == words[i] % 32)
            && Run(patched, x) == Some(val)
  {
    var p := seq(4, i requires 0 <= i < 4 => WithImm16(words[i], Part(val, i)));
    forall i: nat | i < 4
      ensures p[i] / 0x20_0000 == words[i] / 0x20_0000 && p[i] % 32 == words[i] % 32 && Imm16(p[i]) == Part(val, i)
    {
      WithImm16Fields(words[i], Part(val, i));
    }
    var v0: U64 := Part(val, 0);
    var v1: U64 := v0 + Shifted(Part(val, 1), 1);
    var v2: U64 := v1 + Shifted(Part(val, 2), 2);
    PartsSum(val);
    PartZero(v0, 1);
    PartZero(v1, 2);
    PartZero(v2, 3);
    assert Execute(p[0], x) == Some(v0);
    hide Execute, WithImm16, Imm16, Part, Shifted;
    MovkAdds(p[1], 1, v0, Part(val, 1));
    MovkAdds(p[2], 2, v1, Part(val, 2));
    MovkAdds(p[3], 3, v2, Part(val, 3));
    assert p[3..][1..] == [] && p[2..][1..] == p[3..] && p[1..][1..] == p[2..];
    assert Run(p[3..], v2) == Some(val);
    assert Run(p[2..], v1) == Some(val);
    assert Run(p[1..], v0) == Some(val);
  }

  /** What the two kinds of word do to the register: set it to the shifted immediate, or replace that part of it. */
  lemma MovesAre(word: U32, i: nat, x: U64)
    requires i < 4
    ensures IsMovz(word, i) ==> Execute(word, x) == Some(Shifted(Imm16(word), i))
    ensures IsMovk(word, i) ==> Execute(word, x).Some?
                                && Execute(word, x).value == x - Shifted(Part(x, i), i) + Shifted(Imm16(word), i)
  {
  }

  /** Some words: branches two instructions forward and back, and the constants of movz x0, #0x1234 and of
    * movk x0, #0x5678, lsl #16; and the first hints. */
  lemma WordExamples()
    ensures EncB(0x1000, 0x1008) == 0x1400_0002 && EncB(0x1008, 0x1000) == 0x17FF_FFFE
    ensures forall x: U64 :: Execute(0xD282_4680, x) == Some(0x1234)
    ensures Execute(0xF2AA_CF00, 0x1234) == Some(0x5678_1234)
    ensures HintAt(0x10_0004, 0) == 0xF_0000 && HintAt(0x10_0004, 1) == 0x11_0000 && HintAt(0x10_0004, 2) == 0xE_0000
    ensures HINTS == 3840
  {
  }
}
