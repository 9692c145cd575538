/** Shifts and bitwise operators on naturals, the C expressions of the headers without a fixed
    width. Every operator is characterised bit by bit, and `SameBits` turns equal bits into
    equal words, so that later proofs never search through bit-vectors. */
module Bits {

  function Pow2(n: nat): (r: nat)
    ensures r > 0
  {
    if n == 0 then 1 else 2 * Pow2(n - 1)
  }

  predicate Bit(x: nat, i: nat) {
    if i == 0 then x % 2 == 1 else Bit(x / 2, i - 1)
  }

  function And(x: nat, y: nat): nat
    decreases x
  {
    if x == 0 then 0
    else 2 * And(x / 2, y / 2) + (if x % 2 == 1 && y % 2 == 1 then 1 else 0)
  }

  function Or(x: nat, y: nat): nat
    decreases x + y
  {
    if x == 0 && y == 0 then 0
    else 2 * Or(x / 2, y / 2) + (if x % 2 == 1 || y % 2 == 1 then 1 else 0)
  }

  function Shl(x: nat, k: nat): nat {
    if k == 0 then x else 2 * Shl(x, k - 1)
  }

  function Shr(x: nat, k: nat): nat {
    if k == 0 then x else Shr(x / 2, k - 1)
  }

  /** `n` one bits. */
  function Mask(n: nat): nat {
    Pow2(n) - 1
  }

  /** `~x` in a word of `width` bits. */
  function Not(width: nat, x: nat): nat
    decreases width
  {
    if width == 0 then 0 else 2 * Not(width - 1, x / 2) + (1 - x % 2)
  }

  // ----- each operator, bit by bit

  /** A word built from half of it and its lowest bit. */
  lemma Halves(x: nat, half: nat, low: nat)
    requires x == 2 * half + low && low < 2
    ensures x / 2 == half && x % 2 == low
  {
  }

  lemma {:induction false} ZeroBit(i: nat)
    ensures !Bit(0, i)
  {
    if i > 0 { ZeroBit(i - 1); }
  }

  lemma {:induction false} AndBit(x: nat, y: nat, i: nat)
    ensures Bit(And(x, y), i) <==> Bit(x, i) && Bit(y, i)
    decreases x, i
  {
    if x == 0 {
      ZeroBit(i);
    } else {
      Halves(And(x, y), And(x / 2, y / 2), if x % 2 == 1 && y % 2 == 1 then 1 else 0);
      if i > 0 { AndBit(x / 2, y / 2, i - 1); }
    }
  }

  lemma {:induction false} OrBit(x: nat, y: nat, i: nat)
    ensures Bit(Or(x, y), i) <==> Bit(x, i) || Bit(y, i)
    decreases x + y, i
  {
    if x == 0 && y == 0 {
      ZeroBit(i);
    } else {
      Halves(Or(x, y), Or(x / 2, y / 2), if x % 2 == 1 || y % 2 == 1 then 1 else 0);
      if i > 0 { OrBit(x / 2, y / 2, i - 1); }
    }
  }

  lemma {:induction false} ShlBit(x: nat, k: nat, i: nat)
    ensures Bit(Shl(x, k), i) <==> i >= k && Bit(x, i - k)
    decreases k, i
  {
    if k > 0 {
      Halves(Shl(x, k), Shl(x, k - 1), 0);
      if i > 0 { ShlBit(x, k - 1, i - 1); }
    }
  }

  lemma {:induction false} ShrBit(x: nat, k: nat, i: nat)
    ensures Bit(Shr(x, k), i) <==> Bit(x, i + k)
    decreases k
  {
    if k > 0 { ShrBit(x / 2, k - 1, i); }
  }

  lemma {:induction false} MaskBit(n: nat, i: nat)
    ensures Bit(Mask(n), i) <==> i < n
    decreases n
  {
    if n == 0 {
      ZeroBit(i);
    } else {
      Halves(Mask(n), Mask(n - 1), 1);
      if i > 0 { MaskBit(n - 1, i - 1); }
    }
  }

  lemma {:induction false} NotBit(width: nat, x: nat, i: nat)
    ensures Bit(Not(width, x), i) <==> i < width && !Bit(x, i)
    decreases width
  {
    if width == 0 {
      ZeroBit(i);
    } else {
      Halves(Not(width, x), Not(width - 1, x / 2), 1 - x % 2);
      if i > 0 { NotBit(width - 1, x / 2, i - 1); }
    }
  }

  // ----- words are their bits

  lemma {:induction false} SameBits(x: nat, y: nat)
    requires forall i: nat :: Bit(x, i) == Bit(y, i)
    ensures x == y
    decreases x + y
  {
    if x != 0 || y != 0 {
      assert Bit(x, 0) == Bit(y, 0);
      forall i: nat ensures Bit(x / 2, i) == Bit(y / 2, i) {
        assert Bit(x, i + 1) == Bit(y, i + 1);
      }
      SameBits(x / 2, y / 2);
    }
  }

  /** No bit of x from n upwards is set. */
  ghost predicate NoBitFrom(x: nat, n: nat) {
    forall i: nat :: i >= n ==> !Bit(x, i)
  }

  lemma {:induction false} BelowBits(x: nat, n: nat)
    ensures x < Pow2(n) <==> NoBitFrom(x, n)
    decreases n
  {
    if n == 0 {
      forall i: nat { ZeroBit(i); }
      if NoBitFrom(x, n) { SameBits(x, 0); }
    } else {
      BelowBits(x / 2, n - 1);
      if NoBitFrom(x / 2, n - 1) {
        forall i: nat | i >= n ensures !Bit(x, i) { assert !Bit(x / 2, i - 1); }
      } else {
        var i: nat :| i >= n - 1 && Bit(x / 2, i);
        assert Bit(x, i + 1);
      }
    }
  }

  // ----- the operators as arithmetic

  lemma {:induction false} ShlIsTimes(x: nat, k: nat)
    ensures Shl(x, k) == x * Pow2(k)
  {
    if k > 0 { ShlIsTimes(x, k - 1); }
  }

  lemma {:induction false} ShrIsDivide(x: nat, k: nat)
    ensures Shr(x, k) == x / Pow2(k)
    decreases k
  {
    if k > 0 {
      ShrIsDivide(x / 2, k - 1);
      HalveThenDivide(x, Pow2(k - 1));
    }
  }

  lemma HalveThenDivide(x: nat, d: nat)
    requires d > 0
    ensures x / 2 / d == x / (2 * d)
  {
    var q, r := x / (2 * d), x % (2 * d);
    assert x / 2 == q * d + r / 2;
    assert r / 2 < d;
    QuotientIs(x / 2, d, q, r / 2);
  }

  /** Division is the only way to write x as q * d + r with a small r. */
  lemma QuotientIs(x: nat, d: nat, q: nat, r: nat)
    requires r < d && x == q * d + r
    ensures x / d == q && x % d == r
  {
    UniqueQuotient(d, x / d, x % d, q, r);
  }

  lemma UniqueQuotient(d: nat, p: nat, m: nat, q: nat, r: nat)
    requires m < d && r < d && p * d + m == q * d + r
    ensures p == q && m == r
  {
    if p < q {
      NextMultiple(p, q, d);
    } else if p > q {
      NextMultiple(q, p, d);
    }
  }

  lemma NextMultiple(p: nat, q: nat, d: nat)
    requires p < q
    ensures q * d >= p * d + d
  {
    var e := q - p - 1;
    assert (p + 1 + e) * d == p * d + d + e * d;
  }

  lemma AndZero(x: nat)
    ensures And(x, 0) == 0
  {
    forall i: nat ensures Bit(And(x, 0), i) == Bit(0, i) { AndBit(x, 0, i); ZeroBit(i); }
    SameBits(And(x, 0), 0);
  }

  lemma AndMaskStep(x: nat, n: nat)
    requires n > 0
    ensures And(x, Mask(n)) == 2 * And(x / 2, Mask(n - 1)) + x % 2
  {
    Halves(Mask(n), Mask(n - 1), 1);
  }

  /** Masking with n ones is the remainder modulo 2^n. */
  lemma {:induction false} MaskIsModulo(x: nat, n: nat)
    ensures And(x, Mask(n)) == x % Pow2(n)
    decreases n
  {
    if n == 0 {
      AndZero(x);
    } else {
      MaskIsModulo(x / 2, n - 1);
      AndMaskStep(x, n);
      DoubledRemainder(x, Pow2(n - 1));
    }
  }

  lemma DoubledRemainder(x: nat, d: nat)
    requires d > 0
    ensures x % (2 * d) == 2 * (x / 2 % d) + x % 2
  {
    var q, r := x / 2 / d, x / 2 % d;
    assert x / 2 == q * d + r;
    assert x == q * (2 * d) + (2 * r + x % 2);
    QuotientIs(x, 2 * d, q, 2 * r + x % 2);
  }

  lemma {:induction false} Pow2Adds(m: nat, n: nat)
    ensures Pow2(m + n) == Pow2(m) * Pow2(n)
  {
    if m > 0 { Pow2Adds(m - 1, n); }
  }

  lemma {:induction false} Pow2Grows(m: nat, n: nat)
    requires m <= n
    ensures Pow2(m) <= Pow2(n)
  {
    if m < n { Pow2Grows(m, n - 1); }
  }

  /** The powers of two that the headers write as literals. */
  lemma Powers()
    ensures Pow2(1) == 2 && Pow2(2) == 4 && Pow2(3) == 8 && Pow2(4) == 16 && Pow2(5) == 32
    ensures Pow2(8) == 0x100 && Pow2(12) == 0x1000 && Pow2(14) == 0x4000 && Pow2(16) == 0x1_0000
    ensures Pow2(24) == 0x100_0000 && Pow2(32) == 0x1_0000_0000 && Pow2(48) == 0x1_0000_0000_0000
    ensures Pow2(56) == 0x100_0000_0000_0000 && Pow2(64) == 0x1_0000_0000_0000_0000
  {
    assert Pow2(4) == 16;
    assert Pow2(8) == 0x100 by { Pow2Adds(4, 4); }
    assert Pow2(12) == 0x1000 by { Pow2Adds(8, 4); }
    assert Pow2(14) == 0x4000 by { Pow2Adds(12, 2); }
    assert Pow2(16) == 0x1_0000 by { Pow2Adds(8, 8); }
    assert Pow2(24) == 0x100_0000 by { Pow2Adds(16, 8); }
    assert Pow2(32) == 0x1_0000_0000 by { Pow2Adds(16, 16); }
    assert Pow2(48) == 0x1_0000_0000_0000 by { Pow2Adds(32, 16); }
    assert Pow2(56) == 0x100_0000_0000_0000 by { Pow2Adds(48, 8); }
    assert Pow2(64) == 0x1_0000_0000_0000_0000 by { Pow2Adds(32, 32); }
  }
}
