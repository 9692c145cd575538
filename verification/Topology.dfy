/** The i915 topology query: slice, subslice and EU availability packed into one byte array and
    read back by three formulas. */
module Topology {
  import opened Bits
  import opened Bytes
  import opened Tiling

  datatype Info = Info(maxSlices: nat, maxSubslices: nat, maxEus: nat,
                       subsliceOffset: nat, subsliceStride: nat, euOffset: nat, euStride: nat)
  {
    /** Strides cover their rows and the three areas follow one another. */
    predicate Valid() {
      && maxSlices <= 8 * subsliceOffset
      && maxSubslices <= 8 * subsliceStride
      && maxEus <= 8 * euStride
      && subsliceOffset + Product(maxSlices, subsliceStride) <= euOffset
    }

    function Size(): nat {
      euOffset + Product(Product(maxSlices, maxSubslices), euStride)
    }
  }

  datatype Item = Slice(x: nat) | Subslice(x: nat, y: nat) | Eu(x: nat, y: nat, z: nat)

  predicate InRange(t: Info, i: Item) {
    i.x < t.maxSlices && (!i.Slice? ==> i.y < t.maxSubslices) && (i.Eu? ==> i.z < t.maxEus)
  }

  /** The index of the byte that the query formula of an item reads. */
  function ByteIndex(t: Info, i: Item): nat {
    match i
    case Slice(x) => x / 8
    case Subslice(x, y) => t.subsliceOffset + Product(x, t.subsliceStride) + y / 8
    case Eu(x, y, z) => t.euOffset + Product(Product(x, t.maxSubslices) + y, t.euStride) + z / 8
  }

  /** The bit of that byte. */
  function BitIndex(i: Item): nat {
    match i
    case Slice(x) => x % 8
    case Subslice(_, y) => y % 8
    case Eu(_, _, z) => z % 8
  }

  /** `(data[...] >> (n % 8)) & 1` */
  function Query(t: Info, data: seq<Byte>, i: Item): nat
    requires ByteIndex(t, i) < |data|
  {
    And(Shr(data[ByteIndex(t, i)], BitIndex(i)), 1)
  }

  // ----- different items have different bits

  lemma ByteBounds(t: Info, i: Item)
    requires t.Valid() && InRange(t, i)
    ensures i.Slice? ==> ByteIndex(t, i) < t.subsliceOffset
    ensures i.Subslice? ==> t.subsliceOffset <= ByteIndex(t, i) < t.euOffset
    ensures i.Eu? ==> t.euOffset <= ByteIndex(t, i)
    ensures ByteIndex(t, i) < t.Size()
  {
    match i
    case Slice(x) =>
    case Subslice(x, y) =>
      DigitsBelow(x, y / 8, t.subsliceStride, t.maxSlices);
    case Eu(x, y, z) =>
      DigitsBelow(x, y, t.maxSubslices, t.maxSlices);
      DigitsBelow(Product(x, t.maxSubslices) + y, z / 8, t.euStride, Product(t.maxSlices, t.maxSubslices));
  }

  /** Slice, subslice and EU formulas address pairwise distinct bits. */
  lemma BitsDistinct(t: Info, i: Item, j: Item)
    requires t.Valid() && InRange(t, i) && InRange(t, j)
    requires ByteIndex(t, i) == ByteIndex(t, j) && BitIndex(i) == BitIndex(j)
    ensures i == j
  {
    ByteBounds(t, i);
    ByteBounds(t, j);
    match i {
      case Slice(x) =>
      case Subslice(x, y) =>
        Digits(x, y / 8, t.subsliceStride);
        Digits(j.x, j.y / 8, t.subsliceStride);
      case Eu(x, y, z) =>
        Digits(Product(x, t.maxSubslices) + y, z / 8, t.euStride);
        Digits(Product(j.x, t.maxSubslices) + j.y, j.z / 8, t.euStride);
        Digits(x, y, t.maxSubslices);
        Digits(j.x, j.y, t.maxSubslices);
    }
  }

  // ----- writing and reading back

  function SetBit(b: Byte, n: nat): (r: Byte)
    requires n < 8
  {
    SetBitBelow(b, n);
    Or(b, Shl(1, n))
  }

  lemma OneBit(i: nat)
    ensures Bit(1, i) <==> i == 0
  {
    if i > 0 { ZeroBit(i - 1); }
  }

  lemma SetBitBelow(b: Byte, n: nat)
    requires n < 8
    ensures Or(b, Shl(1, n)) < 256
  {
    assert Pow2(8) == 256 by { Powers(); }
    BelowBits(b, 8);
    forall i: nat | i >= 8 ensures !Bit(Or(b, Shl(1, n)), i) {
      OrBit(b, Shl(1, n), i);
      ShlBit(1, n, i);
      OneBit(i - n);
    }
    BelowBits(Or(b, Shl(1, n)), 8);
  }

  lemma SetBitBits(b: Byte, n: nat, i: nat)
    requires n < 8
    ensures Bit(SetBit(b, n), i) <==> i == n || Bit(b, i)
  {
    OrBit(b, Shl(1, n), i);
    ShlBit(1, n, i);
    if i >= n { OneBit(i - n); }
  }

  lemma QueryIsBit(t: Info, data: seq<Byte>, i: Item)
    requires ByteIndex(t, i) < |data|
    ensures Query(t, data, i) == if Bit(data[ByteIndex(t, i)], BitIndex(i)) then 1 else 0
  {
    var s := Shr(data[ByteIndex(t, i)], BitIndex(i));
    ShrBit(data[ByteIndex(t, i)], BitIndex(i), 0);
    assert Mask(1) == 1;
    MaskIsModulo(s, 1);
  }

  ghost predicate Written(t: Info, data: seq<Byte>, items: seq<Item>)
    requires t.Valid() && |data| == t.Size()
  {
    forall i :: InRange(t, i) ==>
      (ByteBounds(t, i); Bit(data[ByteIndex(t, i)], BitIndex(i)) <==> i in items)
  }

  lemma WriteOne(t: Info, data: seq<Byte>, items: seq<Item>, new_: Item)
    requires t.Valid() && |data| == t.Size() && InRange(t, new_) && Written(t, data, items)
    ensures ByteIndex(t, new_) < |data|
    ensures var k := ByteIndex(t, new_);
            Written(t, data[k := SetBit(data[k], BitIndex(new_))], items + [new_])
  {
    ByteBounds(t, new_);
    var k := ByteIndex(t, new_);
    var after := data[k := SetBit(data[k], BitIndex(new_))];
    forall i | InRange(t, i) ensures ByteIndex(t, i) < |after| && (Bit(after[ByteIndex(t, i)], BitIndex(i)) <==> i in items + [new_]) {
      ByteBounds(t, i);
      if ByteIndex(t, i) == k {
        SetBitBits(data[k], BitIndex(new_), BitIndex(i));
        if BitIndex(i) == BitIndex(new_) { BitsDistinct(t, i, new_); }
      }
    }
  }

  /** Every query formula answers 1 exactly for the items of the list. */
  ghost predicate Answers(t: Info, data: seq<Byte>, items: seq<Item>) {
    forall i :: InRange(t, i) ==> ByteIndex(t, i) < |data| && Query(t, data, i) == if i in items then 1 else 0
  }

  // the three formulas in plain numbers

  lemma SliceFormula(t: Info, data: seq<Byte>, items: seq<Item>, x: nat, k: nat)
    requires Answers(t, data, items) && x < t.maxSlices && k == x / 8
    ensures k < |data| && And(Shr(data[k], x % 8), 1) == if Slice(x) in items then 1 else 0
  {
    assert InRange(t, Slice(x));
  }

  lemma SubsliceFormula(t: Info, data: seq<Byte>, items: seq<Item>, x: nat, y: nat, k: nat)
    requires Answers(t, data, items) && x < t.maxSlices && y < t.maxSubslices
    requires k == t.subsliceOffset + x * t.subsliceStride + y / 8
    ensures k < |data| && And(Shr(data[k], y % 8), 1) == if Subslice(x, y) in items then 1 else 0
  {
    assert InRange(t, Subslice(x, y));
  }

  lemma EuFormula(t: Info, data: seq<Byte>, items: seq<Item>, x: nat, y: nat, z: nat, k: nat)
    requires Answers(t, data, items) && x < t.maxSlices && y < t.maxSubslices && z < t.maxEus
    requires k == t.euOffset + (x * t.maxSubslices + y) * t.euStride + z / 8
    ensures k < |data| && And(Shr(data[k], z % 8), 1) == if Eu(x, y, z) in items then 1 else 0
  {
    assert InRange(t, Eu(x, y, z));
  }

  /** Fill `data[]` from the list of available slices, subslices and EUs: every query formula then
      answers 1 exactly for the items of the list. */
  method Fill(t: Info, items: seq<Item>) returns (data: array<Byte>)
    requires t.Valid() && forall i :: i in items ==> InRange(t, i)
    ensures fresh(data) && data.Length == t.Size()
    ensures Answers(t, data[..], items)
  {
    data := new Byte[t.Size()](_ => 0);
    forall i | InRange(t, i) ensures ByteIndex(t, i) < data.Length && !Bit(data[ByteIndex(t, i)], BitIndex(i)) {
      ByteBounds(t, i);
      ZeroBit(BitIndex(i));
    }
    for n := 0 to |items|
      invariant Written(t, data[..], items[..n])
    {
      WriteOne(t, data[..], items[..n], items[n]);
      assert items[..n + 1] == items[..n] + [items[n]];
      var k := ByteIndex(t, items[n]);
      data[k] := SetBit(data[k], BitIndex(items[n]));
    }
    assert items[..|items|] == items;
    forall i | InRange(t, i)
      ensures ByteIndex(t, i) < data.Length && Query(t, data[..], i) == if i in items then 1 else 0
    {
      ByteBounds(t, i);
      QueryIsBit(t, data[..], i);
    }
  }
}
