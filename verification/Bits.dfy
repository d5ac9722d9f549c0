/** The bits of a number. */
module Bits {
  function Power(base: nat, n: nat): (p: nat)
    ensures base > 0 ==> p > 0
  {
    if n == 0 then 1 else base * Power(base, n - 1)
  }

  /** Bit i of a number. */
  function Bit(x: nat, i: nat): nat {
    if i == 0 then x % 2 else Bit(x / 2, i - 1)
  }

  /** The bits of a number whose upper part is a and whose lower n bits are b. */
  lemma {:induction false} BitSplit(a: nat, b: nat, n: nat, i: nat)
    requires b < Power(2, n)
    ensures Bit(a * Power(2, n) + b, i) == if i < n then Bit(b, i) else Bit(a, i - n)
  {
    hide *;
    if n == 0 {
      PowerOfTwo(n, a);
    } else {
      PowerOfTwo(n, a);
      var q := a * Power(2, n - 1);
      BitNext(2 * q + b, i);
      BitNext(b, i);
      Halves(q, b);
      if i > 0 {
        BitSplit(a, b / 2, n - 1, i - 1);
      }
    }
  }

  lemma PowerOfTwo(n: nat, a: nat)
    ensures Power(2, n) == if n == 0 then 1 else 2 * Power(2, n - 1)
    ensures n > 0 ==> a * Power(2, n) == 2 * (a * Power(2, n - 1))
  {
    if n > 0 {
      var p := Power(2, n - 1);
      assert a * (2 * p) == 2 * (a * p);
    }
  }

  lemma Halves(q: nat, b: nat)
    ensures (2 * q + b) % 2 == b % 2 && (2 * q + b) / 2 == q + b / 2
  {
  }

  lemma {:induction false} BitOfZero(i: nat)
    ensures Bit(0, i) == 0
  {
    if i > 0 {
      BitOfZero(i - 1);
    }
  }

  lemma BitNext(x: nat, i: nat)
    ensures Bit(x, i) == if i == 0 then x % 2 else Bit(x / 2, i - 1)
  {
  }

  lemma {:induction false} BitIsBit(x: nat, i: nat)
    ensures Bit(x, i) < 2
  {
    if i > 0 {
      BitIsBit(x / 2, i - 1);
    }
  }

  lemma LowBit(p: nat, rest: nat)
    requires p < 2
    ensures (p + 2 * rest) % 2 == p && (p + 2 * rest) / 2 == rest
  {
  }

  /** x and value agree on every bit that mask has: (x & mask) == value, for a value within the mask. */
  ghost predicate Matches(x: nat, mask: nat, value: nat) {
    forall i: nat :: i < 32 && Bit(mask, i) == 1 ==> Bit(x, i) == Bit(value, i)
  }

  /** n bits from bit lo on, as a number. */
  function Field(x: nat, lo: nat, n: nat): nat {
    x / Power(2, lo) % Power(2, n)
  }

  /** A number of n ones. */
  lemma {:induction false} Ones(n: nat, i: nat)
    ensures Bit(Power(2, n) - 1, i) == if i < n then 1 else 0
  {
    if n == 0 {
      BitOfZero(i);
    } else {
      LowBit(1, Power(2, n - 1) - 1);
      BitNext(Power(2, n) - 1, i);
      if i > 0 {
        Ones(n - 1, i - 1);
      }
    }
  }

  lemma {:induction false} ShiftedBit(x: nat, lo: nat, i: nat)
    ensures Bit(x / Power(2, lo), i) == Bit(x, lo + i)
    decreases lo
  {
    if lo > 0 {
      var q := Power(2, lo - 1);
      DivTwice(x, q);
      ShiftedBit(x / 2, lo - 1, i);
      BitNext(x, lo + i);
    }
  }

  lemma DivTwice(x: nat, q: nat)
    requires q > 0
    ensures x / (2 * q) == x / 2 / q
  {
    var y := x / 2;
    var d, m := y / q, y % q;
    assert y == q * d + m;
    var rest := x - 2 * (q * d);
    assert 2 * (q * d) == (2 * q) * d;
    assert 0 <= rest < 2 * q;
    assert x == (2 * q) * d + rest;
    DivUnique(x, 2 * q, d, rest);
  }

  lemma DivUnique(x: nat, m: nat, d: nat, rest: nat)
    requires m > 0 && rest < m && x == m * d + rest
    ensures x / m == d && x % m == rest
  {
    var e := x / m;
    assert x == m * e + x % m;
    if e < d {
      Larger(m, e, d);
    } else if e > d {
      Larger(m, d, e);
    }
  }

  lemma Larger(m: nat, d: nat, e: nat)
    requires d < e
    ensures m * d + m <= m * e
  {
    assert m * e == m * (d + 1) + m * (e - d - 1);
  }

  ghost predicate SameBelow(x: nat, y: nat, n: nat) {
    forall i: nat :: i < n ==> Bit(x, i) == Bit(y, i)
  }

  /** Two numbers of n bits are equal exactly when their bits are. */
  lemma {:induction false} SameBits(x: nat, y: nat, n: nat)
    requires x < Power(2, n) && y < Power(2, n)
    ensures x == y <==> SameBelow(x, y, n)
  {
    if n > 0 && SameBelow(x, y, n) {
      BitNext(x, 0);
      BitNext(y, 0);
      assert Bit(x, 0) == Bit(y, 0);
      forall i: nat | i < n - 1
        ensures Bit(x / 2, i) == Bit(y / 2, i)
      {
        BitNext(x, i + 1);
        BitNext(y, i + 1);
        assert Bit(x, i + 1) == Bit(y, i + 1);
      }
      SameBits(x / 2, y / 2, n - 1);
    }
  }

  lemma LowBits(x: nat, n: nat, i: nat)
    requires i < n
    ensures Bit(x % Power(2, n), i) == Bit(x, i)
  {
    var p := Power(2, n);
    assert x == x / p * p + x % p;
    BitSplit(x / p, x % p, n, i);
  }

  /** The bits of a field. */
  lemma FieldBit(x: nat, lo: nat, n: nat, i: nat)
    requires i < n
    ensures Bit(Field(x, lo, n), i) == Bit(x, lo + i)
  {
    LowBits(x / Power(2, lo), n, i);
    ShiftedBit(x, lo, i);
  }

  /** A mask of n ones from bit lo on. */
  function Mask(lo: nat, n: nat): nat {
    (Power(2, n) - 1) * Power(2, lo)
  }

  lemma MaskBit(lo: nat, n: nat, i: nat)
    ensures Bit(Mask(lo, n), i) == if lo <= i < lo + n then 1 else 0
  {
    BitSplit(Power(2, n) - 1, 0, lo, i);
    BitOfZero(i);
    if lo <= i {
      Ones(n, i - lo);
    }
  }

  lemma ValueBit(v: nat, lo: nat, i: nat)
    ensures Bit(v * Power(2, lo), lo + i) == Bit(v, i)
  {
    BitSplit(v, 0, lo, lo + i);
  }

  /** It matches exactly on that field. */
  lemma FieldMatches(x: nat, lo: nat, n: nat, v: nat)
    requires v < Power(2, n) && lo + n <= 32
    ensures Matches(x, Mask(lo, n), v * Power(2, lo)) <==> Field(x, lo, n) == v
  {
    hide *;
    var value := v * Power(2, lo);
    FieldSmall(x, lo, n);
    SameBits(Field(x, lo, n), v, n);
    if Field(x, lo, n) == v {
      forall i: nat | i < 32 && Bit(Mask(lo, n), i) == 1
        ensures Bit(x, i) == Bit(value, i)
      {
        MaskBit(lo, n, i);
        FieldBit(x, lo, n, i - lo);
        ValueBit(v, lo, i - lo);
      }
      MatchesIs(x, Mask(lo, n), value);
    }
    if Matches(x, Mask(lo, n), value) {
      forall i: nat | i < n
        ensures Bit(Field(x, lo, n), i) == Bit(v, i)
      {
        MaskBit(lo, n, lo + i);
        MatchesAt(x, Mask(lo, n), value, lo + i);
        FieldBit(x, lo, n, i);
        ValueBit(v, lo, i);
      }
      SameBelowIs(Field(x, lo, n), v, n);
    }
  }

  lemma FieldSmall(x: nat, lo: nat, n: nat)
    ensures Field(x, lo, n) < Power(2, n)
  {
  }

  lemma MatchesIs(x: nat, mask: nat, value: nat)
    requires forall i: nat :: i < 32 && Bit(mask, i) == 1 ==> Bit(x, i) == Bit(value, i)
    ensures Matches(x, mask, value)
  {
  }

  lemma MatchesAt(x: nat, mask: nat, value: nat, i: nat)
    requires Matches(x, mask, value) && i < 32 && Bit(mask, i) == 1
    ensures Bit(x, i) == Bit(value, i)
  {
  }

  lemma SameBelowIs(x: nat, y: nat, n: nat)
    requires forall i: nat :: i < n ==> Bit(x, i) == Bit(y, i)
    ensures SameBelow(x, y, n)
  {
  }

  /** A mask in two parts matches exactly when each part does. */
  lemma TwoParts(x: nat, a: nat, va: nat, b: nat, vb: nat, lo: nat)
    requires b < Power(2, lo) && vb < Power(2, lo)
    ensures var p := Power(2, lo);
            Matches(x, a * p + b, va * p + vb) <==> Matches(x, a * p, va * p) && Matches(x, b, vb)
  {
    hide *;
    var p := Power(2, lo);
    forall i: nat
      ensures Bit(a * p + b, i) == (if i < lo then Bit(b, i) else Bit(a * p, i))
      ensures Bit(va * p + vb, i) == (if i < lo then Bit(vb, i) else Bit(va * p, i))
      ensures i < lo ==> Bit(a * p, i) == 0
      ensures i >= lo ==> Bit(b, i) == 0
    {
      Parts(a, b, lo, i);
      Parts(va, vb, lo, i);
    }
    if Matches(x, a * p + b, va * p + vb) {
      forall i: nat | i < 32 && Bit(a * p, i) == 1
        ensures Bit(x, i) == Bit(va * p, i)
      {
        MatchesAt(x, a * p + b, va * p + vb, i);
      }
      forall i: nat | i < 32 && Bit(b, i) == 1
        ensures Bit(x, i) == Bit(vb, i)
      {
        MatchesAt(x, a * p + b, va * p + vb, i);
      }
      MatchesIs(x, a * p, va * p);
      MatchesIs(x, b, vb);
    }
    if Matches(x, a * p, va * p) && Matches(x, b, vb) {
      forall i: nat | i < 32 && Bit(a * p + b, i) == 1
        ensures Bit(x, i) == Bit(va * p + vb, i)
      {
        if i < lo {
          MatchesAt(x, b, vb, i);
        } else {
          MatchesAt(x, a * p, va * p, i);
        }
      }
      MatchesIs(x, a * p + b, va * p + vb);
    }
  }

  lemma Parts(a: nat, b: nat, lo: nat, i: nat)
    requires b < Power(2, lo)
    ensures var p := Power(2, lo);
            && Bit(a * p + b, i) == (if i < lo then Bit(b, i) else Bit(a * p, i))
            && (i < lo ==> Bit(a * p, i) == 0) && (i >= lo ==> Bit(b, i) == 0)
  {
    BitSplit(a, b, lo, i);
    BitSplit(a, 0, lo, i);
    BitSplit(0, b, lo, i);
    BitOfZero(i);
    if i >= lo {
      BitOfZero(i - lo);
    }
  }
}
