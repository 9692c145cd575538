/** `XVMCLOCKPTR`: locks placed on cache lines of their own inside an area that is one line larger
    than the locks need, whatever the address of the area. */
module XvmcLocks {
  import opened Bits

  /** `((base + (line - 1)) & ~(line - 1)) + line * lockNo` in n-bit addresses, line = 2^p */
  function LockPtr(n: nat, p: nat, base: nat, lockNo: nat): nat {
    And(base + Mask(p), Not(n, Mask(p))) + Pow2(p) * lockNo
  }

  lemma MaskOffIsRoundDown(n: nat, p: nat, x: nat)
    requires x < Pow2(n)
    ensures And(x, Not(n, Mask(p))) == x / Pow2(p) * Pow2(p)
  {
    BelowBits(x, n);
    var r := Shl(Shr(x, p), p);
    forall i: nat ensures Bit(And(x, Not(n, Mask(p))), i) == Bit(r, i) {
      AndBit(x, Not(n, Mask(p)), i);
      NotBit(n, Mask(p), i);
      MaskBit(p, i);
      ShlBit(Shr(x, p), p, i);
      if i >= p { ShrBit(x, p, i - p); }
    }
    SameBits(And(x, Not(n, Mask(p))), r);
    ShlIsTimes(Shr(x, p), p);
    ShrIsDivide(x, p);
  }

  lemma RoundUp(base: nat, line: nat) returns (q: nat)
    requires line > 0
    ensures q == (base + (line - 1)) / line && base <= q * line < base + line
  {
    var x := base + (line - 1);
    q := x / line;
    var r := x % line;
    assert x == q * line + r;
  }

  lemma RoundedUp(n: nat, p: nat, base: nat) returns (q: nat)
    requires base + Mask(p) < Pow2(n)
    ensures And(base + Mask(p), Not(n, Mask(p))) == q * Pow2(p)
    ensures base <= q * Pow2(p) < base + Pow2(p)
  {
    q := RoundUp(base, Pow2(p));
    MaskOffIsRoundDown(n, p, base + Mask(p));
  }

  lemma Aligned(line: nat, q: nat, k: nat)
    requires line > 0
    ensures (q * line + line * k) % line == 0
  {
    assert q * line + line * k == (q + k) * line;
    QuotientIs((q + k) * line, line, q + k, 0);
  }

  /** For any base address, line size 2^p and number of locks, lock k starts on a multiple of the
      line size and its line lies inside the area of locks + 1 lines. */
  lemma OwnCacheLine(n: nat, p: nat, base: nat, locks: nat, k: nat)
    requires base + Mask(p) < Pow2(n) && k < locks
    ensures LockPtr(n, p, base, k) % Pow2(p) == 0
    ensures base <= LockPtr(n, p, base, k)
    ensures LockPtr(n, p, base, k) + Pow2(p) <= base + Pow2(p) * (locks + 1)
  {
    var q := RoundedUp(n, p, base);
    Aligned(Pow2(p), q, k);
    InsideArea(Pow2(p), q * Pow2(p), base, locks, k);
  }

  lemma InsideArea(line: nat, start: nat, base: nat, locks: nat, k: nat)
    requires k < locks && base <= start < base + line
    ensures base <= start + line * k && start + line * k + line <= base + line * (locks + 1)
  {
    NextMultiple(k, locks, line);
    assert line * (locks + 1) == line * locks + line;
  }

  /** Different locks never share a line. */
  lemma LinesDisjoint(n: nat, p: nat, base: nat, j: nat, k: nat)
    requires base + Mask(p) < Pow2(n) && j < k
    ensures LockPtr(n, p, base, j) + Pow2(p) <= LockPtr(n, p, base, k)
  {
    NextMultiple(j, k, Pow2(p));
  }

  /** Lock k is k lines above the first line boundary that is not below the base. */
  lemma FirstLine(n: nat, p: nat, base: nat, k: nat, m: nat)
    requires base + Mask(p) < Pow2(n)
    ensures LockPtr(n, p, base, 0) % Pow2(p) == 0 && base <= LockPtr(n, p, base, 0)
    ensures m % Pow2(p) == 0 && base <= m ==> LockPtr(n, p, base, 0) <= m
    ensures LockPtr(n, p, base, k) == LockPtr(n, p, base, 0) + k * Pow2(p)
  {
    OwnCacheLine(n, p, base, 1, 0);
    var q := RoundedUp(n, p, base);
    LeastMultiple(base, Pow2(p), q, m);
  }

  lemma LeastMultiple(base: nat, line: nat, q: nat, m: nat)
    requires line > 0 && q * line < base + line
    ensures m % line == 0 && base <= m ==> q * line <= m
  {
    var j := m / line;
    if m % line == 0 && base <= m && j < q { NextMultiple(j, q, line); }
    if q < j { NextMultiple(q, j, line); }
  }
}
