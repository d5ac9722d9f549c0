/** Symbol lookup through the two ELF hash tables, against a linear scan of the symbol names. */
module ElfHash {
  import opened Basics
  import opened Bits

  type Name = seq<Byte>

  // ---------- the hash functions ----------

  /** `(h << 5) + h + c` in 32 bits */
  function GnuStep(h: U32, c: Byte): U32 {
    (h * 33 + c) % 0x1_0000_0000
  }

  function GnuHashFrom(h: U32, s: Name): U32
    decreases |s|
  {
    if s == [] then h else GnuHashFrom(GnuStep(h, s[0]), s[1..])
  }

  function GnuHashOf(s: Name): U32 {
    GnuHashFrom(5381, s)
  }

  /** Exclusive or of the lower n bits of two numbers. */
  function Xor(a: nat, b: nat, n: nat): (x: nat)
    ensures x < Power(2, n)
  {
    if n == 0 then 0 else (a + b) % 2 + 2 * Xor(a / 2, b / 2, n - 1)
  }

  /** Exclusive or of two 4-bit values. */
  function Xor4(a: nat, b: nat): (x: nat)
    ensures x < 16
  {
    assert Power(2, 4) == 16;
    Xor(a, b, 4)
  }

  /** The top four bits folded into bits 4 to 7, then cleared. */
  function Folded(h: U32): U32 {
    var top, rest, mid, low := h / 0x1000_0000, h / 0x100 % 0x10_0000, h / 16 % 16, h % 16;
    rest * 0x100 + (if top != 0 then Xor4(mid, top) else mid) * 16 + low
  }

  /** `h = (h << 4) + c`, folded. */
  function SysvStep(h: U32, c: Byte): U32 {
    Folded((h * 16 + c) % 0x1_0000_0000)
  }

  function SysvHashFrom(h: U32, s: Name): U32
    decreases |s|
  {
    if s == [] then h else SysvHashFrom(SysvStep(h, s[0]), s[1..])
  }

  function SysvHashOf(s: Name): U32 {
    SysvHashFrom(0, s)
  }

  // ---------- what the hashes are ----------

  /** The sum of s[i] * base^(|s| - 1 - i): the name read as digits. */
  function Weighted(base: nat, s: Name): nat {
    if s == [] then 0 else s[0] * Power(base, |s| - 1) + Weighted(base, s[1..])
  }

  /** A step of the polynomial: taking one digit into the leading coefficient. */
  lemma TakeDigit(base: nat, h: nat, s: Name)
    requires s != []
    ensures h * Power(base, |s|) + Weighted(base, s) ==
            (h * base + s[0]) * Power(base, |s| - 1) + Weighted(base, s[1..])
  {
    Distribute(h, base, s[0], Power(base, |s| - 1));
  }

  lemma Distribute(h: nat, base: nat, c: nat, p: nat)
    ensures h * (base * p) + c * p == (h * base + c) * p
  {
    assert h * (base * p) == (h * base) * p;
  }

  lemma ModScaled(x: nat, k: nat, y: nat)
    ensures (x % 0x1_0000_0000 * k + y) % 0x1_0000_0000 == (x * k + y) % 0x1_0000_0000
  {
    var q, z := x / 0x1_0000_0000, x % 0x1_0000_0000;
    assert x == q * 0x1_0000_0000 + z;
    Distribute(q, 0x1_0000_0000, z, k);
    assert q * (0x1_0000_0000 * k) == (q * k) * 0x1_0000_0000;
    ModPlus(q * k, z * k + y);
  }

  lemma ModPlus(q: nat, z: nat)
    ensures (q * 0x1_0000_0000 + z) % 0x1_0000_0000 == z % 0x1_0000_0000
  {
    assert (q * 0x1_0000_0000 + z) / 0x1_0000_0000 == q + z / 0x1_0000_0000;
  }

  lemma {:induction false} GnuFromIsPolynomial(h: U32, s: Name)
    ensures GnuHashFrom(h, s) == (h * Power(33, |s|) + Weighted(33, s)) % 0x1_0000_0000
    decreases |s|
  {
    if s != [] {
      GnuFromIsPolynomial(GnuStep(h, s[0]), s[1..]);
      assert GnuHashFrom(h, s) == GnuHashFrom(GnuStep(h, s[0]), s[1..]);
      TakeDigit(33, h, s);
      assert GnuStep(h, s[0]) == (h * 33 + s[0]) % 0x1_0000_0000;
      hide *;
      ModScaled(h * 33 + s[0], Power(33, |s| - 1), Weighted(33, s[1..]));
    }
  }

  /** The GNU hash is the polynomial of the name's bytes at 33 with leading coefficient 5381, modulo 2^32. */
  lemma GnuIsPolynomial(s: Name)
    ensures GnuHashOf(s) == (5381 * Power(33, |s|) + Weighted(33, s)) % 0x1_0000_0000
  {
    GnuFromIsPolynomial(5381, s);
  }

  /** The SysV hash never uses its top four bits. */
  lemma {:induction false} SysvBelow(h: U32, s: Name)
    requires h < 0x1000_0000
    ensures SysvHashFrom(h, s) < 0x1000_0000
    decreases |s|
  {
    if s != [] {
      FoldedBelow((h * 16 + s[0]) % 0x1_0000_0000);
      assert SysvStep(h, s[0]) < 0x1000_0000;
      hide SysvStep;
      SysvBelow(SysvStep(h, s[0]), s[1..]);
    }
  }

  lemma FoldedBelow(h: U32)
    ensures Folded(h) < 0x1000_0000
  {
    hide Xor4;
  }

  lemma {:induction false} SysvFromIsPolynomial(h: U32, s: Name)
    requires h * Power(16, |s|) + Weighted(16, s) < 0x1000_0000
    ensures SysvHashFrom(h, s) == h * Power(16, |s|) + Weighted(16, s)
    decreases |s|
  {
    hide SysvStep;
    if s != [] {
      TakeDigit(16, h, s);
      Dominates(h * 16 + s[0], Power(16, |s| - 1));
      NoFold(h, s[0]);
      assert SysvHashFrom(h, s) == SysvHashFrom(SysvStep(h, s[0]), s[1..]);
      hide *;
      SysvFromIsPolynomial(SysvStep(h, s[0]), s[1..]);
    } else {
      assert Power(16, |s|) == 1;
    }
  }

  lemma Dominates(x: nat, p: nat)
    requires p > 0
    ensures x <= x * p
  {
  }

  lemma NoFold(h: U32, c: Byte)
    requires h * 16 + c < 0x1000_0000
    ensures SysvStep(h, c) == h * 16 + c
  {
    hide Folded;
    assert (h * 16 + c) % 0x1_0000_0000 == h * 16 + c;
    FoldedSmall(h * 16 + c);
  }

  lemma FoldedSmall(x: U32)
    requires x < 0x1000_0000
    ensures Folded(x) == x
  {
    hide Xor4;
    assert x / 0x1000_0000 == 0;
    assert x / 0x100 % 0x10_0000 == x / 0x100;
    assert Folded(x) == x / 0x100 * 0x100 + x / 16 % 16 * 16 + x % 16;
    hide Folded;
    Nibbles(x);
  }

  lemma Nibbles(x: nat)
    ensures x == x / 0x100 * 0x100 + x / 16 % 16 * 16 + x % 16
  {
    var y := x / 16;
    assert x == y * 16 + x % 16 && y == y / 16 * 16 + y % 16;
    assert x / 0x100 == y / 16;
  }

  /** The hashes of three names; the SysV hash of the first overflows its 28 bits. */
  lemma HashExamples()
    ensures SysvHashOf(SYSCALL) == 0xB09_985C && SysvHashOf(PRINTF) == 0x779_05A6 && SysvHashOf(EXIT) == 0x6_CF04
    ensures GnuHashOf(PRINTF) == 0x156B_2BB8 && GnuHashOf(EXIT) == 0x7C96_7E3F
  {
    SysvExample();
    SysvIsPolynomial(PRINTF);
    SysvIsPolynomial(EXIT);
    GnuIsPolynomial(PRINTF);
    GnuIsPolynomial(EXIT);
    Polynomials();
  }

  const SYSCALL: Name := [115, 121, 115, 99, 97, 108, 108]
  const PRINTF: Name := [112, 114, 105, 110, 116, 102]
  const EXIT: Name := [101, 120, 105, 116]

  /** A name's digits from the front. */
  function Horner(base: nat, h: nat, s: Name): nat
    decreases |s|
  {
    if s == [] then h else Horner(base, h * base + s[0], s[1..])
  }

  lemma {:induction false} HornerIs(base: nat, h: nat, s: Name)
    ensures Horner(base, h, s) == h * Power(base, |s|) + Weighted(base, s)
    decreases |s|
  {
    if s != [] {
      TakeDigit(base, h, s);
      hide Power, Weighted;
      HornerIs(base, h * base + s[0], s[1..]);
    }
  }

  lemma Polynomials()
    ensures Weighted(16, PRINTF) == 0x779_05A6 && Weighted(16, EXIT) == 0x6_CF04
    ensures (5381 * Power(33, 6) + Weighted(33, PRINTF)) % 0x1_0000_0000 == 0x156B_2BB8
    ensures (5381 * Power(33, 4) + Weighted(33, EXIT)) % 0x1_0000_0000 == 0x7C96_7E3F
  {
    hide *;
    HornerIs(16, 0, PRINTF);
    HornerIs(16, 0, EXIT);
    HornerIs(33, 5381, PRINTF);
    HornerIs(33, 5381, EXIT);
    NoPower(|PRINTF|);
    NoPower(|EXIT|);
    Printf([112, 114, 105, 110, 116, 102]);
    Exit([101, 120, 105, 116]);
    assert 6953911397304 == 1619 * 0x1_0000_0000 + 0x156B_2BB8;
    assert 6385204799 == 1 * 0x1_0000_0000 + 0x7C96_7E3F;
  }

  lemma NoPower(n: nat)
    ensures 0 * Power(16, n) == 0
  {
  }

  lemma Printf(s: Name)
    requires s == [112, 114, 105, 110, 116, 102]
    ensures s == PRINTF && |s| == 6 && Horner(16, 0, s) == 0x779_05A6 && Horner(33, 5381, s) == 6953911397304
  {
    hide Horner;
    HornerSix(16, 0, s);
    HornerSix(33, 5381, s);
  }

  lemma Exit(s: Name)
    requires s == [101, 120, 105, 116]
    ensures s == EXIT && |s| == 4 && Horner(16, 0, s) == 0x6_CF04 && Horner(33, 5381, s) == 6385204799
  {
    hide Horner;
    HornerFour(16, 0, s);
    HornerFour(33, 5381, s);
  }

  lemma HornerFour(base: nat, h: nat, s: Name)
    requires |s| == 4
    ensures Horner(base, h, s) == (((h * base + s[0]) * base + s[1]) * base + s[2]) * base + s[3]
  {
    assert s[1..][1..] == s[2..] && s[2..][1..] == s[3..] && s[3..][1..] == [];
    hide Horner;
    HornerNext(base, h, s);
    HornerNext(base, h * base + s[0], s[1..]);
    HornerNext(base, (h * base + s[0]) * base + s[1], s[2..]);
    HornerNext(base, ((h * base + s[0]) * base + s[1]) * base + s[2], s[3..]);
    HornerNext(base, (((h * base + s[0]) * base + s[1]) * base + s[2]) * base + s[3], []);
  }

  lemma HornerSix(base: nat, h: nat, s: Name)
    requires |s| == 6
    ensures Horner(base, h, s) ==
            ((((((h * base + s[0]) * base + s[1]) * base + s[2]) * base + s[3]) * base + s[4]) * base + s[5])
  {
    assert s[1..][1..] == s[2..];
    hide Horner;
    HornerNext(base, h, s);
    HornerNext(base, h * base + s[0], s[1..]);
    HornerFour(base, (h * base + s[0]) * base + s[1], s[2..]);
  }

  lemma HornerNext(base: nat, h: nat, s: Name)
    ensures Horner(base, h, s) == if s == [] then h else Horner(base, h * base + s[0], s[1..])
  {
  }

  lemma SysvExample()
    ensures SysvHashOf(SYSCALL) == 0xB09_985C
  {
    hide *;
    LastStep();
    NoFold(0, 115);
    NoFold(0x73, 121);
    NoFold(0x7A9, 115);
    NoFold(0x7B03, 99);
    NoFold(0x7_B093, 97);
    NoFold(0x7B_0991, 108);
    var s: Name := [115, 121, 115, 99, 97, 108, 108];
    SyscallIs(s);
    SysvAt(0x7B0_997C, s, 6);
    SysvAt(0x7B_0991, s, 5);
    SysvAt(0x7_B093, s, 4);
    SysvAt(0x7B03, s, 3);
    SysvAt(0x7A9, s, 2);
    SysvAt(0x73, s, 1);
    SysvAt(0, s, 0);
    assert s[7..] == [] && s[0..] == s;
    NoLetters(0xB09_985C);
    FromStart(s);
  }

  lemma SyscallIs(s: Name)
    requires s == [115, 121, 115, 99, 97, 108, 108]
    ensures s == SYSCALL
  {
  }

  lemma NoLetters(h: U32)
    ensures SysvHashFrom(h, []) == h && GnuHashFrom(h, []) == h
  {
  }

  lemma FromStart(s: Name)
    ensures SysvHashOf(s) == SysvHashFrom(0, s) && GnuHashOf(s) == GnuHashFrom(5381, s)
  {
  }

  lemma LastStep()
    ensures SysvStep(0x7B0_997C, 108) == 0xB09_985C
  {
    hide *;
    FoldedIs(7, 0xB_0998, 2, 0xC);
    TwoXorSeven();
    StepIs(0x7B0_997C, 108);
  }

  lemma StepIs(h: U32, c: Byte)
    requires h * 16 + c < 0x1_0000_0000
    ensures SysvStep(h, c) == Folded(h * 16 + c)
  {
    hide Folded;
  }

  lemma TwoXorSeven()
    ensures Xor4(2, 7) == 5
  {
    assert Xor(0, 0, 1) == 0 && Xor(0, 1, 2) == 1 && Xor(1, 3, 3) == 2;
  }

  lemma FoldedIs(top: nat, rest: nat, mid: nat, low: nat)
    requires 0 < top < 16 && rest < 0x10_0000 && mid < 16 && low < 16
    ensures Folded(((top * 0x10_0000 + rest) * 16 + mid) * 16 + low) == rest * 0x100 + Xor4(mid, top) * 16 + low
  {
    var x: U32 := ((top * 0x10_0000 + rest) * 16 + mid) * 16 + low;
    Digits(top * 0x10_0000 + rest, mid, low);
    assert x / 0x1000_0000 == top;
    assert x / 0x100 % 0x10_0000 == rest;
    hide Xor4;
  }

  lemma Digits(y: nat, mid: nat, low: nat)
    requires mid < 16 && low < 16
    ensures var x := (y * 16 + mid) * 16 + low;
            x % 16 == low && x / 16 % 16 == mid && x / 0x100 == y
  {
    var z := y * 16 + mid;
    assert (z * 16 + low) / 16 == z;
    assert (z * 16 + low) / 0x100 == z / 16;
  }

  lemma SysvAt(h: U32, s: Name, i: nat)
    requires i < |s|
    ensures SysvHashFrom(h, s[i..]) == SysvHashFrom(SysvStep(h, s[i]), s[i + 1..])
  {
    hide SysvStep;
    assert s[i..][1..] == s[i + 1..];
  }

  /** It has 28 bits, and until they overflow it is the name's bytes read at base 16. */
  lemma SysvIsPolynomial(s: Name)
    ensures SysvHashOf(s) < 0x1000_0000
    ensures Weighted(16, s) < 0x1000_0000 ==> SysvHashOf(s) == Weighted(16, s)
  {
    SysvBelow(0, s);
    if Weighted(16, s) < 0x1000_0000 {
      SysvFromIsPolynomial(0, s);
    }
  }

  lemma {:induction false} XorBits(a: nat, b: nat, n: nat, i: nat)
    requires i < n
    ensures Bit(Xor(a, b, n), i) == (Bit(a, i) + Bit(b, i)) % 2
  {
    hide *;
    var rest := Xor(a / 2, b / 2, n - 1);
    XorNext(a, b, n);
    LowBit((a + b) % 2, rest);
    BitNext(a, i);
    BitNext(b, i);
    BitNext(Xor(a, b, n), i);
    if i > 0 {
      XorBits(a / 2, b / 2, n - 1, i - 1);
    } else {
      ParitySum(a, b);
    }
  }

  lemma XorNext(a: nat, b: nat, n: nat)
    requires n > 0
    ensures Xor(a, b, n) == (a + b) % 2 + 2 * Xor(a / 2, b / 2, n - 1)
  {
  }

  lemma ParitySum(a: nat, b: nat)
    ensures (a + b) % 2 == (a % 2 + b % 2) % 2
  {
  }

  lemma Powers()
    ensures Power(2, 4) == 16 && Power(2, 20) == 0x10_0000
  {
    assert Power(2, 4) == 16;
    assert Power(2, 8) == 0x100;
    assert Power(2, 12) == 0x1000;
    assert Power(2, 16) == 0x1_0000;
  }

  /** Three fields of 20, 4 and 4 bits and one above them. */
  lemma FieldBits(top: nat, rest: nat, mid: nat, low: nat, i: nat)
    requires rest < 0x10_0000 && mid < 16 && low < 16
    ensures Bit(((top * 0x10_0000 + rest) * 16 + mid) * 16 + low, i) ==
            if i < 4 then Bit(low, i) else if i < 8 then Bit(mid, i - 4)
            else if i < 28 then Bit(rest, i - 8) else Bit(top, i - 28)
  {
    Powers();
    BitSplit((top * 0x10_0000 + rest) * 16 + mid, low, 4, i);
    if i >= 4 {
      BitSplit(top * 0x10_0000 + rest, mid, 4, i - 4);
    }
    if i >= 8 {
      BitSplit(top, rest, 20, i - 8);
    }
  }

  lemma Fields(x: U32)
    ensures var top, rest, mid, low := x / 0x1000_0000, x / 0x100 % 0x10_0000, x / 16 % 16, x % 16;
            top < 16 && x == ((top * 0x10_0000 + rest) * 16 + mid) * 16 + low
  {
    Nibbles(x);
    var y := x / 0x100;
    assert x / 0x1000_0000 == y / 0x10_0000;
    assert y == y / 0x10_0000 * 0x10_0000 + y % 0x10_0000;
  }

  /** The step of the SysV hash, bit by bit: h is shifted by four bits and c is added; bits 28 to 31 of that are
    * exclusive-ored into bits 4 to 7, and cleared; every other bit stays. */
  lemma SysvStepBits(h: U32, c: Byte, i: nat)
    ensures var x := (h * 16 + c) % 0x1_0000_0000;
            Bit(SysvStep(h, c), i) ==
            if i >= 28 then 0
            else if 4 <= i < 8 then (Bit(x, i) + Bit(x, i + 24)) % 2
            else Bit(x, i)
  {
    hide *;
    var x: U32 := (h * 16 + c) % 0x1_0000_0000;
    var top, rest, mid, low := x / 0x1000_0000, x / 0x100 % 0x10_0000, x / 16 % 16, x % 16;
    Fields(x);
    SysvStepFields(h, c);
    FieldBits(top, rest, mid, low, i);
    FieldBits(0, rest, if top != 0 then Xor4(mid, top) else mid, low, i);
    FieldBits(top, rest, mid, low, i + 24);
    if i >= 28 {
      BitOfZero(i - 28);
    } else if 4 <= i < 8 {
      NibbleXor(mid, top, i - 4);
    }
  }

  lemma SysvStepFields(h: U32, c: Byte)
    ensures var x := (h * 16 + c) % 0x1_0000_0000;
            var top, rest, mid, low := x / 0x1000_0000, x / 0x100 % 0x10_0000, x / 16 % 16, x % 16;
            SysvStep(h, c) ==
            ((0 * 0x10_0000 + rest) * 16 + if top != 0 then Xor4(mid, top) else mid) * 16 + low
  {
    hide Xor4;
  }

  lemma NibbleXor(mid: nat, top: nat, i: nat)
    requires mid < 16 && top < 16 && i < 4
    ensures Bit(if top != 0 then Xor4(mid, top) else mid, i) == (Bit(mid, i) + Bit(top, i)) % 2
  {
    if top != 0 {
      XorBits(mid, top, 4, i);
    } else {
      BitOfZero(i);
      BitIsBit(mid, i);
    }
  }

  /** gnu_hash */
  method GnuHash(s: Name) returns (h: U32)
    ensures h == GnuHashOf(s)
  {
    h := 5381;
    for i := 0 to |s|
      invariant GnuHashFrom(h, s[i..]) == GnuHashOf(s)
    {
      h := GnuStep(h, s[i]);
      assert s[i..][1..] == s[i + 1..];
    }
  }

  /** sysv_hash */
  method SysvHash(s: Name) returns (h: U32)
    ensures h == SysvHashOf(s)
  {
    hide SysvStep;
    h := 0;
    for i := 0 to |s|
      invariant SysvHashFrom(h, s[i..]) == SysvHashOf(s)
    {
      h := SysvStep(h, s[i]);
      assert s[i..][1..] == s[i + 1..];
    }
  }

  // ---------- the tables of a loaded image ----------

  /** The parts of SoHandle that lookups read: each symbol's name and whether it is defined, and the two
    * hash tables. A bucket count of 0 means the image has no such table. A 64-bit bloom word is the set
    * of its bits. */
  datatype SoHandle = SoHandle(
    names: seq<Name>, defined: seq<bool>,
    gnuNbucket: nat, gnuSymndx: nat, gnuMaskwords: nat, gnuShift2: nat,
    gnuBloom: seq<set<nat>>, gnuBuckets: seq<U32>, gnuChain: seq<U32>,
    sysvNbucket: nat, sysvBuckets: seq<U32>, sysvChain: seq<U32>)

  const BITS := 64

  /** The two bloom bits of a hash. */
  function BloomMask(h: SoHandle, hash: U32): set<nat> {
    {hash % BITS, hash / Power(2, h.gnuShift2) % BITS}
  }

  function BloomWord(h: SoHandle, hash: U32): set<nat>
    requires |h.gnuBloom| == h.gnuMaskwords > 0
  {
    h.gnuBloom[hash / BITS % h.gnuMaskwords]
  }

  function GnuBucket(h: SoHandle, hash: U32): (b: nat)
    requires h.gnuNbucket > 0
    ensures b < h.gnuNbucket
  {
    hash % h.gnuNbucket
  }

  /** `x | 1` */
  function OrOne(x: U32): U32 {
    if x % 2 == 0 then x + 1 else x
  }

  /** The chain word of hashed symbol i. */
  function ChainWord(h: SoHandle, i: nat): U32
    requires h.gnuSymndx <= i < |h.names| && |h.gnuChain| == |h.names| - h.gnuSymndx
  {
    h.gnuChain[i - h.gnuSymndx]
  }

  /** The sizes agree, and every hashed symbol has its chain word and its two bloom bits. */
  ghost predicate WfGnuSymbols(h: SoHandle) {
    && h.gnuNbucket > 0 && |h.gnuBuckets| == h.gnuNbucket
    && |h.gnuBloom| == h.gnuMaskwords > 0
    && h.gnuSymndx <= |h.names| < 0x1_0000_0000 && |h.gnuChain| == |h.names| - h.gnuSymndx
    && forall i :: h.gnuSymndx <= i < |h.names| ==>
         var hash := GnuHashOf(h.names[i]);
         OrOne(ChainWord(h, i)) == OrOne(hash) && BloomMask(h, hash) <= BloomWord(h, hash)
  }

  /** The symbols of bucket b are exactly those from its start to end, and the end bit is set on the
    * last of them only. */
  ghost predicate BucketRun(h: SoHandle, b: nat, end: nat)
    requires WfGnuSymbols(h) && b < h.gnuNbucket
  {
    var start := h.gnuBuckets[b];
    && h.gnuSymndx <= start <= end < |h.names|
    && (forall i :: h.gnuSymndx <= i < |h.names| ==>
          (GnuBucket(h, GnuHashOf(h.names[i])) == b <==> start <= i <= end))
    && (forall i :: start <= i <= end ==> (ChainWord(h, i) % 2 == 1 <==> i == end))
  }

  ghost predicate BucketEmpty(h: SoHandle, b: nat)
    requires WfGnuSymbols(h) && b < h.gnuNbucket
  {
    && h.gnuBuckets[b] < h.gnuSymndx
    && forall i :: h.gnuSymndx <= i < |h.names| ==> GnuBucket(h, GnuHashOf(h.names[i])) != b
  }

  ghost predicate WfGnu(h: SoHandle) {
    && WfGnuSymbols(h)
    && forall b :: 0 <= b < h.gnuNbucket ==> BucketEmpty(h, b) || exists end: nat :: BucketRun(h, b, end)
  }

  /** The first symbol from index i on that has the name. */
  function LinearScan(names: seq<Name>, i: nat, name: Name): Option<nat>
    requires i <= |names|
    decreases |names| - i
  {
    if i == |names| then None
    else if names[i] == name then Some(i)
    else LinearScan(names, i + 1, name)
  }

  lemma {:induction false} ScanSkips(names: seq<Name>, i: nat, j: nat, name: Name)
    requires i <= j <= |names| && forall k :: i <= k < j ==> names[k] != name
    ensures LinearScan(names, i, name) == LinearScan(names, j, name)
    decreases j - i
  {
    if i < j {
      ScanSkips(names, i + 1, j, name);
    }
  }

  /** A name can only occur in the run of its hash's bucket. */
  lemma OnlyInItsRun(h: SoHandle, name: Name) returns (end: nat)
    requires WfGnu(h)
    ensures var b := GnuBucket(h, GnuHashOf(name));
            var start := h.gnuBuckets[b];
            && (start >= h.gnuSymndx ==> BucketRun(h, b, end))
            && forall k :: h.gnuSymndx <= k < |h.names| && (start < h.gnuSymndx || !(start <= k <= end)) ==>
                             h.names[k] != name
  {
    hide BloomWord, BloomMask, GnuHashOf, OrOne;
    var b := GnuBucket(h, GnuHashOf(name));
    end := 0;
    if h.gnuBuckets[b] >= h.gnuSymndx {
      assert !BucketEmpty(h, b);
      end :| BucketRun(h, b, end);
    } else {
      assert BucketEmpty(h, b);
    }
    forall k | h.gnuSymndx <= k < |h.names| && GnuBucket(h, GnuHashOf(h.names[k])) != b
      ensures h.names[k] != name
    {
    }
  }

  /** On a run: the chain words of equal names agree but for the end bit, which marks the last. */
  lemma EndBit(h: SoHandle, b: nat, end: nat, name: Name, i: nat)
    requires WfGnuSymbols(h) && b < h.gnuNbucket && BucketRun(h, b, end) && h.gnuBuckets[b] <= i <= end
    ensures i < |h.names| && h.gnuSymndx <= i
    ensures h.names[i] == name ==> OrOne(ChainWord(h, i)) == OrOne(GnuHashOf(name))
    ensures ChainWord(h, i) % 2 == 1 <==> i == end
  {
    hide OrOne, GnuHashOf;
  }

  /** A symbol the bloom filter rejects does not exist. */
  lemma BloomRejects(h: SoHandle, name: Name)
    requires WfGnu(h) && !(BloomMask(h, GnuHashOf(name)) <= BloomWord(h, GnuHashOf(name)))
    ensures forall k :: h.gnuSymndx <= k < |h.names| ==> h.names[k] != name
  {
    hide BloomWord, BloomMask, GnuHashOf, OrOne;
  }

  /** gnu_lookup: on a well-formed table it returns exactly what the linear scan returns. */
  method GnuLookup(h: SoHandle, name: Name) returns (r: Option<nat>)
    requires h.gnuNbucket > 0 ==> WfGnu(h)
    ensures h.gnuNbucket == 0 ==> r == None
    ensures h.gnuNbucket > 0 ==> r == LinearScan(h.names, h.gnuSymndx, name)
  {
    if h.gnuNbucket == 0 {
      return None;
    }
    hide BloomWord, BloomMask, GnuBucket, GnuHashOf, OrOne, BucketRun;
    var hash := GnuHash(name);
    var word := BloomWord(h, hash);
    var mask := BloomMask(h, hash);
    if !(mask <= word) {
      BloomRejects(h, name);
      ScanSkips(h.names, h.gnuSymndx, |h.names|, name);
      return None;
    }
    ghost var b := GnuBucket(h, hash);
    var idx: U32 := h.gnuBuckets[GnuBucket(h, hash)];
    ghost var start := idx;
    ghost var end := OnlyInItsRun(h, name);
    if idx < h.gnuSymndx {
      ScanSkips(h.names, h.gnuSymndx, |h.names|, name);
      return None;
    }
    while true
      invariant start <= idx <= end
      invariant forall k :: h.gnuSymndx <= k < idx ==> h.names[k] != name
      decreases end - idx
    {
      var chain := ChainWord(h, idx);
      EndBit(h, b, end, name, idx);
      if OrOne(chain) == OrOne(hash) && h.names[idx] == name {
        ScanSkips(h.names, h.gnuSymndx, idx, name);
        return Some(idx);
      }
      if chain % 2 == 1 {
        break;
      }
      idx := idx + 1;
    }
    ScanSkips(h.names, h.gnuSymndx, |h.names|, name);
    return None;
  }

  // ---------- the SysV table ----------

  const STN_UNDEF := 0

  function SysvBucket(h: SoHandle, name: Name): nat
    requires h.sysvNbucket > 0
  {
    SysvHashOf(name) % h.sysvNbucket
  }

  /** Every link leads to a smaller rank, so no chain comes back to itself. */
  ghost predicate Ranked(h: SoHandle, rank: seq<nat>) {
    && |rank| == |h.sysvChain| == |h.names|
    && (forall i :: 0 <= i < |h.names| ==> h.sysvChain[i] < |h.names|)
    && (forall i :: 0 < i < |h.names| && h.sysvChain[i] != STN_UNDEF ==> rank[h.sysvChain[i]] < rank[i])
  }

  /** The symbols on the chain that starts at idx. */
  ghost function ChainFrom(h: SoHandle, rank: seq<nat>, idx: nat): set<nat>
    requires Ranked(h, rank) && (idx == STN_UNDEF || idx < |h.names|)
    decreases if idx == STN_UNDEF then 0 else rank[idx] + 1
  {
    if idx == STN_UNDEF then {} else {idx} + ChainFrom(h, rank, h.sysvChain[idx])
  }

  /** Acyclic chains, each symbol but the null symbol on the chain of its name's bucket. */
  ghost predicate WfSysvWith(h: SoHandle, rank: seq<nat>) {
    && h.sysvNbucket > 0 && |h.sysvBuckets| == h.sysvNbucket && Ranked(h, rank)
    && (forall b :: 0 <= b < h.sysvNbucket ==> h.sysvBuckets[b] == STN_UNDEF || h.sysvBuckets[b] < |h.names|)
    && (forall i :: 0 < i < |h.names| ==> i in ChainFrom(h, rank, h.sysvBuckets[SysvBucket(h, h.names[i])]))
  }

  ghost predicate WfSysv(h: SoHandle) {
    exists rank :: WfSysvWith(h, rank)
  }

  /** The tables that a linker makes for the symbols printf and exit, with two buckets each. */
  const LINKED: SoHandle := SoHandle(
    [[], PRINTF, EXIT], [false, true, true],
    2, 1, 4, 6, [{63, 56}, {}, {56, 46}, {}], [1, 2], [0x156B_2BB9, 0x7C96_7E3F],
    2, [2, 0], [0, 0, 1])

  /** They are well formed. */
  lemma LinkedIsWellFormed()
    ensures WfGnu(LINKED) && WfSysv(LINKED)
  {
    HashExamples();
    LinkedGnu();
    LinkedSysv();
  }

  lemma LinkedGnu()
    requires GnuHashOf(PRINTF) == 0x156B_2BB8 && GnuHashOf(EXIT) == 0x7C96_7E3F
    ensures WfGnu(LINKED)
  {
    hide GnuHashOf;
    var h := LINKED;
    assert h.names[1] == PRINTF && h.names[2] == EXIT;
    assert Power(2, 6) == 64;
    hide Power;
    assert WfGnuSymbols(h);
    assert BucketRun(h, 0, 1);
    assert BucketRun(h, 1, 2);
  }

  lemma LinkedSysv()
    requires SysvHashOf(PRINTF) == 0x779_05A6 && SysvHashOf(EXIT) == 0x6_CF04
    ensures WfSysv(LINKED)
  {
    hide SysvHashOf;
    var h, rank := LINKED, [0, 1, 2];
    assert h.names[1] == PRINTF && h.names[2] == EXIT;
    assert Ranked(h, rank);
    assert ChainFrom(h, rank, 0) == {};
    assert ChainFrom(h, rank, 1) == {1};
    assert ChainFrom(h, rank, 2) == {2, 1};
    assert WfSysvWith(h, rank);
  }

  ghost predicate HasSymbol(h: SoHandle, name: Name) {
    exists i :: 0 < i < |h.names| && h.names[i] == name
  }

  /** sysv_lookup: on a well-formed table it finds a symbol of the name exactly when there is one. */
  method SysvLookup(h: SoHandle, name: Name) returns (r: Option<nat>)
    requires h.sysvNbucket > 0 ==> WfSysv(h)
    ensures h.sysvNbucket == 0 ==> r == None
    ensures h.sysvNbucket > 0 ==> (r.Some? <==> HasSymbol(h, name))
    ensures r.Some? ==> 0 < r.value < |h.names| && h.names[r.value] == name
  {
    if h.sysvNbucket == 0 {
      return None;
    }
    ghost var rank :| WfSysvWith(h, rank);
    var hash := SysvHash(name);
    var idx: U32 := h.sysvBuckets[hash % h.sysvNbucket];
    ghost var has, wanted := HasSymbol(h, name), 0;
    if has {
      wanted :| 0 < wanted < |h.names| && h.names[wanted] == name;
    }
    hide SysvHashOf, WfSysvWith;
    while idx != STN_UNDEF
      invariant Ranked(h, rank) && (idx == STN_UNDEF || idx < |h.names|)
      invariant has ==> wanted in ChainFrom(h, rank, idx)
      decreases if idx == STN_UNDEF then 0 else rank[idx] + 1
    {
      if h.names[idx] == name {
        return Some(idx);
      }
      idx := h.sysvChain[idx];
    }
    return None;
  }

  /** dlsym up to the symbol it resolves: the GNU table first, the SysV table if that finds nothing, and
    * an undefined symbol counts as absent. */
  method Dlsym(h: SoHandle, name: Name) returns (r: Option<nat>)
    requires |h.defined| == |h.names|
    requires (h.gnuNbucket > 0 ==> WfGnu(h)) && (h.sysvNbucket > 0 ==> WfSysv(h))
    ensures r.Some? ==> r.value < |h.names| && h.names[r.value] == name && h.defined[r.value]
    ensures h.gnuNbucket > 0 && LinearScan(h.names, h.gnuSymndx, name).Some? ==>
              var i := LinearScan(h.names, h.gnuSymndx, name).value;
              i < |h.names| && r == if h.defined[i] then Some(i) else None
    ensures h.sysvNbucket > 0 && HasSymbol(h, name) ==>
              (forall i :: 0 <= i < |h.names| && h.names[i] == name ==> h.defined[i]) ==> r.Some?
  {
    var s := GnuLookup(h, name);
    if h.gnuNbucket > 0 {
      ScanFinds(h.names, h.gnuSymndx, name);
    }
    if s.None? {
      s := SysvLookup(h, name);
    }
    if s.None? || !h.defined[s.value] {
      return None;
    }
    return s;
  }

  lemma {:induction false} ScanFinds(names: seq<Name>, i: nat, name: Name)
    requires i <= |names|
    ensures match LinearScan(names, i, name)
            case Some(j) => i <= j < |names| && names[j] == name && forall k :: i <= k < j ==> names[k] != name
            case None => forall k :: i <= k < |names| ==> names[k] != name
    decreases |names| - i
  {
    if i < |names| && names[i] != name {
      ScanFinds(names, i + 1, name);
    }
  }
}
