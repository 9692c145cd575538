/** Little-endian bytes of naturals. */
module Bytes {
  import Bits

  type Byte = x: nat | x < 256

  function LittleEndian(v: nat, n: nat): (b: seq<Byte>)
    ensures |b| == n
  {
    if n == 0 then [] else [v % 256] + LittleEndian(v / 256, n - 1)
  }

  function FromLittleEndian(b: seq<Byte>): nat {
    if b == [] then 0 else b[0] + 256 * FromLittleEndian(b[1..])
  }

  function Pow256(n: nat): (r: nat)
    ensures r > 0
  {
    if n == 0 then 1 else 256 * Pow256(n - 1)
  }

  /** Writing n bytes and reading them back returns every value that fits. */
  lemma {:induction false} ReadsBack(v: nat, n: nat)
    requires v < Pow256(n)
    ensures FromLittleEndian(LittleEndian(v, n)) == v
  {
    if n > 0 {
      ReadsBack(v / 256, n - 1);
      assert LittleEndian(v, n)[1..] == LittleEndian(v / 256, n - 1);
    }
  }

  /** Byte k is the k-th digit to base 256. */
  lemma {:induction false} Digit(v: nat, n: nat, k: nat)
    requires k < n
    ensures LittleEndian(v, n)[k] == v / Pow256(k) % 256
  {
    if k > 0 {
      Digit(v / 256, n - 1, k - 1);
      DivideTwice(v, Pow256(k - 1));
    }
  }

  lemma DivideTwice(v: nat, d: nat)
    requires d > 0
    ensures v / 256 / d == v / (256 * d)
  {
    var q, r := v / (256 * d), v % (256 * d);
    assert v == 256 * (q * d) + r;
    assert v / 256 == q * d + r / 256;
    Bits.QuotientIs(v / 256, d, q, r / 256);
  }

  /** n bytes tell apart exactly the values that differ modulo 256^n. */
  lemma {:induction false} SameBytes(a: nat, b: nat, n: nat)
    ensures LittleEndian(a, n) == LittleEndian(b, n) <==> a % Pow256(n) == b % Pow256(n)
  {
    if n > 0 {
      SameBytes(a / 256, b / 256, n - 1);
      LowByteFirst(a, Pow256(n - 1));
      LowByteFirst(b, Pow256(n - 1));
      assert LittleEndian(a, n)[1..] == LittleEndian(a / 256, n - 1);
      assert LittleEndian(b, n)[1..] == LittleEndian(b / 256, n - 1);
      assert LittleEndian(a, n)[0] == a % 256 && LittleEndian(b, n)[0] == b % 256;
    }
  }

  lemma LowByteFirst(x: nat, d: nat)
    requires d > 0
    ensures x % (256 * d) == 256 * (x / 256 % d) + x % 256
  {
    var q, r := x / 256 / d, x / 256 % d;
    assert x / 256 == q * d + r;
    assert x == q * (256 * d) + (256 * r + x % 256);
    Bits.QuotientIs(x, 256 * d, q, 256 * r + x % 256);
  }

  /** Reading n bytes gives the value modulo 256^n. */
  lemma {:induction false} ReadsModulo(v: nat, n: nat)
    ensures FromLittleEndian(LittleEndian(v, n)) == v % Pow256(n)
  {
    if n > 0 {
      ReadsModulo(v / 256, n - 1);
      LowByteFirst(v, Pow256(n - 1));
      assert LittleEndian(v, n)[1..] == LittleEndian(v / 256, n - 1);
    }
  }

  /** Every sequence of bytes is that of the number it reads as. */
  lemma {:induction false} WritesBack(b: seq<Byte>)
    ensures LittleEndian(FromLittleEndian(b), |b|) == b
  {
    if b != [] {
      WritesBack(b[1..]);
      assert b == [b[0]] + b[1..];
    }
  }

  lemma Widths()
    ensures Pow256(4) == 0x1_0000_0000 && Pow256(8) == 0x1_0000_0000_0000_0000
  {
    assert Pow256(2) == 0x1_0000;
    assert Pow256(4) == 0x1_0000_0000;
    assert Pow256(6) == 0x1_0000_0000_0000;
  }
}
