/** Bit-6 swizzling: the memory controller may XOR higher address bits into bit 6. */
module Swizzle {
  import opened Bits
  import opened Tiling

  /** The `I915_BIT_6_SWIZZLE_*` modes that user space can see. */
  datatype Mode = Plain | By9 | By9And10 | By9And11 | By9And10And11 | By9And17 | By9And10And17

  function Sources(m: Mode): set<nat> {
    match m
    case Plain => {}
    case By9 => {9}
    case By9And10 => {9, 10}
    case By9And11 => {9, 11}
    case By9And10And11 => {9, 10, 11}
    case By9And17 => {9, 17}
    case By9And10And17 => {9, 10, 17}
  }

  /** Whether an odd number of the source bits is set. */
  predicate Odd(m: Mode, a: nat) {
    var b9, b10, b11, b17 := 9 in Sources(m) && Bit(a, 9), 10 in Sources(m) && Bit(a, 10), 11 in Sources(m) && Bit(a, 11), 17 in Sources(m) && Bit(a, 17);
    ((b9 != b10) != b11) != b17
  }

  function Flip6(a: nat): nat {
    if a / 64 % 2 == 1 then a - 64 else a + 64
  }

  function Swizzled(m: Mode, a: nat): nat {
    if Odd(m, a) then Flip6(a) else a
  }

  lemma HighBits(a: nat, i: nat)
    requires i >= 7
    ensures Bit(a, i) == Bit(a / 128, i - 7)
  {
    ShrBit(a, 7, i - 7);
    ShrIsDivide(a, 7);
    assert Pow2(7) == 128;
  }

  lemma Flip6Stays(a: nat)
    ensures Flip6(a) / 128 == a / 128 && Flip6(a) % 64 == a % 64 && Flip6(Flip6(a)) == a
    ensures Flip6(a) / 64 % 2 != a / 64 % 2
  {
    var q, b, r := a / 128, a / 64 % 2, a % 64;
    assert a == 128 * q + 64 * b + r;
    Parts(q, b, r);
    Parts(q, 1 - b, r);
  }

  lemma Parts(q: nat, b: nat, r: nat)
    requires b < 2 && r < 64
    ensures var a := 128 * q + 64 * b + r; a / 128 == q && a / 64 % 2 == b && a % 64 == r
  {
  }

  lemma OddKept(m: Mode, a: nat)
    ensures Odd(m, Flip6(a)) == Odd(m, a)
  {
    Flip6Stays(a);
    HighBits(a, 9); HighBits(a, 10); HighBits(a, 11); HighBits(a, 17);
    HighBits(Flip6(a), 9); HighBits(Flip6(a), 10); HighBits(Flip6(a), 11); HighBits(Flip6(a), 17);
  }

  /** Every mode is its own inverse and never leaves the 128-byte block, nor the 64-byte line offset. */
  lemma SwizzleInvolution(m: Mode, a: nat)
    ensures Swizzled(m, Swizzled(m, a)) == a
    ensures Swizzled(m, a) / 128 == a / 128 && Swizzled(m, a) % 64 == a % 64
  {
    OddKept(m, a);
    Flip6Stays(a);
  }

  /** Bit 6 is XORed with the source bits, all other bits pass through. */
  lemma SwizzleBits(m: Mode, a: nat, i: nat)
    ensures Bit(Swizzled(m, a), i) == if i == 6 then Bit(a, 6) != Odd(m, a) else Bit(a, i)
  {
    Flip6Stays(a);
    BitSix(a);
    BitSix(Flip6(a));
    if i >= 7 {
      HighBits(a, i);
      HighBits(Flip6(a), i);
    } else if i < 6 {
      LowBits(a, i);
      LowBits(Flip6(a), i);
    }
  }

  lemma BitSix(a: nat)
    ensures Bit(a, 6) <==> a / 64 % 2 == 1
  {
    ShrBit(a, 6, 0);
    ShrIsDivide(a, 6);
    assert Pow2(6) == 64;
  }

  lemma LowBits(a: nat, i: nat)
    requires i < 6
    ensures Bit(a, i) == Bit(a % 64, i)
  {
    assert Pow2(6) == 64;
    MaskIsModulo(a, 6);
    AndBit(a, Mask(6), i);
    MaskBit(6, i);
  }

  /** X-tiling followed by a swizzle is still a bijection between the bytes of the image and the
      address range: the swizzle inverts itself and stays inside the range. This holds for tiles of any
      multiple of 128 bytes, among them the 4 KB tiles and the 2 KB tiles of gen2. */
  lemma SwizzledTilingBijection(m: Mode, w: nat, h: nat, stride: nat, rows: nat, x: nat, y: nat, a: nat)
    requires w > 0 && h > 0 && stride > 0 && rows > 0 && stride * rows % 128 == 0
    ensures var g := IntelX(w, h, stride, rows);
            && Proper(g)
            && (x < Width(g) && y < Height(g) ==>
                  && Swizzled(m, Address(g, x, y)) < Area(g)
                  && Position(g, Swizzled(m, Swizzled(m, Address(g, x, y)))) == (x, y))
            && (a < Area(g) ==>
                  var (px, py) := Position(g, Swizzled(m, a));
                  px < Width(g) && py < Height(g) && Swizzled(m, Address(g, px, py)) == a)
  {
    var g := IntelX(w, h, stride, rows);
    var blocks := w * h * (stride * rows / 128);
    XArea(w, h, stride, rows);
    if x < Width(g) && y < Height(g) {
      AddressInverse(g, x, y);
      SwizzleInRange(m, Address(g, x, y), blocks);
      SwizzleInvolution(m, Address(g, x, y));
    }
    if a < Area(g) {
      SwizzleInRange(m, a, blocks);
      SwizzleInvolution(m, a);
      PositionInverse(g, Swizzled(m, a));
    }
  }

  lemma SwizzleInRange(m: Mode, a: nat, blocks: nat)
    requires a < 128 * blocks
    ensures Swizzled(m, a) < 128 * blocks
  {
    SwizzleInvolution(m, a);
    SameBlock(a, Swizzled(m, a), blocks);
  }

  lemma SameBlock(a: nat, s: nat, blocks: nat)
    requires a < 128 * blocks && s / 128 == a / 128
    ensures s < 128 * blocks
  {
  }

  lemma XArea(w: nat, h: nat, stride: nat, rows: nat)
    requires stride * rows % 128 == 0
    ensures Area(IntelX(w, h, stride, rows)) == 128 * (w * h * (stride * rows / 128))
  {
    var g := IntelX(w, h, stride, rows);
    assert g[1..] == [Grid(stride, rows)] && g[1..][1..] == [];
    assert Width(g[1..]) == stride && Height(g[1..]) == rows;
    assert (w * stride) * (h * rows) == (w * h) * (stride * rows);
    var n := stride * rows / 128;
    assert stride * rows == 128 * n;
    assert (w * h) * (128 * n) == 128 * (w * h * n);
  }

  /** Bit 6 in every mode, from the bits of the address that the mode is named after. */
  lemma ModeBits(m: Mode, a: nat)
    ensures Bit(Swizzled(m, a), 6) <==>
            match m
            case Plain => Bit(a, 6)
            case By9 => Bit(a, 6) != Bit(a, 9)
            case By9And10 => (Bit(a, 6) != Bit(a, 9)) != Bit(a, 10)
            case By9And11 => (Bit(a, 6) != Bit(a, 9)) != Bit(a, 11)
            case By9And10And11 => ((Bit(a, 6) != Bit(a, 9)) != Bit(a, 10)) != Bit(a, 11)
            case By9And17 => (Bit(a, 6) != Bit(a, 9)) != Bit(a, 17)
            case By9And10And17 => ((Bit(a, 6) != Bit(a, 9)) != Bit(a, 10)) != Bit(a, 17)
  {
    SwizzleBits(m, a, 6);
  }
}
