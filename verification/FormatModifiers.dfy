/** The 64-bit format modifiers of `drm_fourcc.h`: vendor code, AMD field table, NVIDIA
    block-linear modifiers with their canonical form, Broadcom modifiers with a parameter. */
module FormatModifiers {
  import opened Bits
  import opened BitFields

  const VENDOR_NVIDIA := 0x03
  const VENDOR_BROADCOM := 0x07

  const VALUE := Field(0, 56)

  /** `((u64)vendor << 56) | (val & 0x00ffffffffffffff)` */
  function ModCode(vendor: nat, val: nat): nat {
    Or(Shl(vendor, 56), And(val, Mask(56)))
  }

  lemma ModCodeBit(vendor: nat, val: nat, i: nat)
    ensures Bit(ModCode(vendor, val), i) <==> if i < 56 then Bit(val, i) else Bit(vendor, i - 56)
  {
    OrBit(Shl(vendor, 56), And(val, Mask(56)), i);
    ShlBit(vendor, 56, i);
    AndBit(val, Mask(56), i);
    MaskBit(56, i);
  }

  lemma ModCodeParts(vendor: nat, val: nat)
    requires vendor < Pow2(8)
    ensures ModCode(vendor, val) < Pow2(64)
    ensures Shr(ModCode(vendor, val), 56) == vendor
    ensures Get(VALUE, ModCode(vendor, val)) == And(val, Mask(56))
  {
    var m := ModCode(vendor, val);
    BelowBits(vendor, 8);
    forall i: nat | i >= 64 ensures !Bit(m, i) { ModCodeBit(vendor, val, i); }
    BelowBits(m, 64);
    forall i: nat ensures Bit(Shr(m, 56), i) == Bit(vendor, i) {
      ShrBit(m, 56, i);
      ModCodeBit(vendor, val, i + 56);
    }
    SameBits(Shr(m, 56), vendor);
    forall i: nat ensures Bit(Get(VALUE, m), i) == Bit(And(val, Mask(56)), i) {
      GetBit(VALUE, m, i);
      ModCodeBit(vendor, val, i);
      AndBit(val, Mask(56), i);
      MaskBit(56, i);
    }
    SameBits(Get(VALUE, m), And(val, Mask(56)));
  }

  // ----- AMD

  const AMD_FIELDS := [
    Field(0, 8),   // TILE_VERSION
    Field(8, 5),   // TILE
    Field(13, 1),  // DCC
    Field(14, 1),  // DCC_RETILE
    Field(15, 1),  // DCC_PIPE_ALIGN
    Field(16, 1),  // DCC_INDEPENDENT_64B
    Field(17, 1),  // DCC_INDEPENDENT_128B
    Field(18, 2),  // DCC_MAX_COMPRESSED_BLOCK
    Field(20, 1),  // DCC_CONSTANT_ENCODE
    Field(21, 3),  // PIPE_XOR_BITS
    Field(24, 3),  // BANK_XOR_BITS
    Field(27, 3),  // PACKERS
    Field(30, 3),  // RB
    Field(33, 3)   // PIPE
  ]

  lemma AmdTable()
    ensures Packed(64, AMD_FIELDS)
    ensures forall i: nat :: i >= 36 ==> Outside(AMD_FIELDS, i)
  {
  }

  /** The masks of the AMD fields, as the header has them. */
  const AMD_MASKS := [0xff, 0x1f, 0x1, 0x1, 0x1, 0x1, 0x1, 0x3, 0x1, 0x7, 0x7, 0x7, 0x7, 0x7]

  /** The fields fill bits 0 to 35 without a gap, with these masks. */
  lemma AmdLayout(k: nat)
    requires k < 14
    ensures |AMD_FIELDS| == 14 && Mask(AMD_FIELDS[k].width) == AMD_MASKS[k]
    ensures AMD_FIELDS[k].shift == if k == 0 then 0 else AMD_FIELDS[k - 1].shift + AMD_FIELDS[k - 1].width
    ensures AMD_FIELDS[13].shift + AMD_FIELDS[13].width == 36
  {
    Powers();
  }

  lemma SameAbove(a: nat, b: nat, from: nat, k: nat)
    requires from <= k && forall i: nat :: i >= from ==> Bit(a, i) == Bit(b, i)
    ensures Shr(a, k) == Shr(b, k)
  {
    forall i: nat ensures Bit(Shr(a, k), i) == Bit(Shr(b, k), i) {
      ShrBit(a, k, i);
      ShrBit(b, k, i);
    }
    SameBits(Shr(a, k), Shr(b, k));
  }

  /** Rewriting AMD fields in any order, any number of times: every field reads its last value,
      and the vendor and the reserved bits 55:36 never change. */
  lemma AmdUpdates(m: nat, us: seq<Update>)
    requires m < Pow2(64) && Legal(AMD_FIELDS, us)
    ensures var r := Apply(64, AMD_FIELDS, m, us);
            && r < Pow2(64)
            && Shr(r, 56) == Shr(m, 56)
            && Get(Field(36, 20), r) == Get(Field(36, 20), m)
            && (forall k: nat :: k < |AMD_FIELDS| ==> Get(AMD_FIELDS[k], r) == Latest(us, k, Get(AMD_FIELDS[k], m)))
  {
    var r := Apply(64, AMD_FIELDS, m, us);
    AmdTable();
    UpdatesAreAMap(64, AMD_FIELDS, m, us);
    forall i: nat | i >= 36 ensures Bit(r, i) == Bit(m, i) { assert Outside(AMD_FIELDS, i); }
    GetLocal(Field(36, 20), r, m);
    SameAbove(r, m, 36, 56);
  }

  // ----- NVIDIA

  const KIND := Field(12, 8)
  const NVIDIA_FIELDS := [
    Field(0, 4),   // h
    Field(4, 1),   // block-linear marker
    KIND,
    Field(20, 2),  // g
    Field(22, 1),  // s
    Field(23, 3)   // c
  ]

  /** `0x10 | (h & 0xf) | (k & 0xff) << 12 | ...` */
  function BlockLinear2D(c: nat, s: nat, g: nat, k: nat, h: nat): nat {
    ModCode(VENDOR_NVIDIA, Payload(c, s, g, k, h))
  }

  function Payload(c: nat, s: nat, g: nat, k: nat, h: nat): nat {
    OrAll(NVIDIA_FIELDS, [Update(1, 1), Update(0, h), Update(2, k), Update(3, g), Update(4, s), Update(5, c)])
  }

  function Nvidia16Bx2Block(v: nat): nat {
    BlockLinear2D(0, 0, 0, 0, v)
  }

  function Canonicalize(modifier: nat): nat {
    if And(modifier, 0x10) == 0 || And(modifier, Shl(0xff, 12)) != 0 then modifier
    else Or(modifier, Shl(0xfe, 12))
  }

  predicate BlockLinear(m: nat) {
    Bit(m, 4)
  }

  lemma MaskedInPlace(f: Field, m: nat)
    ensures And(m, Shl(Mask(f.width), f.shift)) == 0 <==> Get(f, m) == 0
  {
    var a := And(m, Shl(Mask(f.width), f.shift));
    forall i: nat ensures Bit(a, i) <==> f.Covers(i) && Bit(Get(f, m), i - f.shift) {
      AndBit(m, Shl(Mask(f.width), f.shift), i);
      ShlBit(Mask(f.width), f.shift, i);
      if i >= f.shift {
        MaskBit(f.width, i - f.shift);
        GetBit(f, m, i - f.shift);
      }
    }
    forall i: nat { ZeroBit(i); }
    if Get(f, m) == 0 { SameBits(a, 0); }
    if a == 0 {
      forall i: nat ensures !Bit(Get(f, m), i) {
        GetBit(f, m, i);
        assert i < f.width ==> f.Covers(i + f.shift) && !Bit(a, i + f.shift);
      }
      SameBits(Get(f, m), 0);
    }
  }

  lemma MarkerTest(m: nat)
    ensures And(m, 0x10) == 0 <==> !BlockLinear(m)
  {
    assert 0x10 == Shl(Mask(1), 4) by { ShlIsTimes(1, 4); Powers(); }
    MaskedInPlace(Field(4, 1), m);
    var g := Get(Field(4, 1), m);
    GetBit(Field(4, 1), m, 0);
    if BlockLinear(m) {
      ZeroBit(0);
    } else {
      forall i: nat ensures Bit(g, i) == Bit(0, i) { GetBit(Field(4, 1), m, i); ZeroBit(i); }
      SameBits(g, 0);
    }
  }

  lemma KindTest(m: nat)
    ensures And(m, Shl(0xff, 12)) == 0 <==> Get(KIND, m) == 0
  {
    assert Mask(8) == 0xff by { Powers(); }
    MaskedInPlace(KIND, m);
  }

  /** What the branches of `Canonicalize` mean: page kind 0 of a block-linear modifier is rewritten
      to 0xfe and nothing else is touched. */
  lemma CanonicalizeIs(m: nat)
    requires m < Pow2(64)
    ensures Canonicalize(m) == if BlockLinear(m) && Get(KIND, m) == 0 then Put(64, KIND, m, 0xfe) else m
  {
    MarkerTest(m);
    KindTest(m);
    if BlockLinear(m) && Get(KIND, m) == 0 {
      assert 0xfe < Pow2(8) by { Powers(); }
      OrIsPut(64, KIND, m, 0xfe);
    }
  }

  lemma CanonicalForm(m: nat)
    requires m < Pow2(64)
    ensures Canonicalize(m) < Pow2(64)
    ensures forall i: nat :: !KIND.Covers(i) ==> Bit(Canonicalize(m), i) == Bit(m, i)
    ensures Get(KIND, Canonicalize(m)) == if BlockLinear(m) && Get(KIND, m) == 0 then 0xfe else Get(KIND, m)
    ensures !(BlockLinear(Canonicalize(m)) && Get(KIND, Canonicalize(m)) == 0)
    ensures Canonicalize(Canonicalize(m)) == Canonicalize(m)
  {
    CanonicalizeIs(m);
    GenericKind(m);
    assert !KIND.Covers(4);
    CanonicalizeIs(Canonicalize(m));
  }

  /** What putting the generic page kind does. */
  lemma GenericKind(m: nat)
    requires m < Pow2(64)
    ensures Put(64, KIND, m, 0xfe) < Pow2(64) && Get(KIND, Put(64, KIND, m, 0xfe)) == 0xfe
    ensures forall i: nat :: !KIND.Covers(i) ==> Bit(Put(64, KIND, m, 0xfe), i) == Bit(m, i)
  {
    assert 0xfe < Pow2(8) by { Powers(); }
    PutBelow(64, KIND, m, 0xfe);
    PutThenGet(64, KIND, m, 0xfe);
    Fits(KIND, 0xfe);
    FitsAfterShift(64, KIND, 0xfe);
    PutKeepsOthers(64, KIND, 0xfe);
  }

  /** Equal everywhere except the page kind. */
  ghost predicate SameButKind(a: nat, b: nat) {
    forall i: nat :: !KIND.Covers(i) ==> Bit(a, i) == Bit(b, i)
  }

  lemma SameButKindAndKind(a: nat, b: nat)
    requires SameButKind(a, b) && Get(KIND, a) == Get(KIND, b)
    ensures a == b
  {
    forall i: nat ensures Bit(a, i) == Bit(b, i) {
      if KIND.Covers(i) { GetBit(KIND, a, i - 12); GetBit(KIND, b, i - 12); }
    }
    SameBits(a, b);
  }

  /** Two modifiers share a canonical form exactly when they are equal, or are block-linear and
      differ only in that one has page kind 0 where the other has 0xfe. */
  lemma CanonicalMerges(a: nat, b: nat)
    requires a < Pow2(64) && b < Pow2(64)
    ensures Canonicalize(a) == Canonicalize(b) <==>
            || a == b
            || (BlockLinear(a) && SameButKind(a, b) && Get(KIND, a) in {0, 0xfe} && Get(KIND, b) in {0, 0xfe})
  {
    CanonicalForm(a);
    CanonicalForm(b);
    assert !KIND.Covers(4);
    if Canonicalize(a) == Canonicalize(b) {
      forall i: nat | !KIND.Covers(i) ensures Bit(a, i) == Bit(b, i) {
        assert Bit(Canonicalize(a), i) == Bit(a, i);
        assert Bit(Canonicalize(b), i) == Bit(b, i);
      }
      if Get(KIND, a) == Get(KIND, b) { SameButKindAndKind(a, b); }
    } else if BlockLinear(a) && SameButKind(a, b) && Get(KIND, a) in {0, 0xfe} && Get(KIND, b) in {0, 0xfe} {
      SameButKindAndKind(Canonicalize(a), Canonicalize(b));
    }
  }

  /** The grandfathered 16Bx2 modifiers become block-linear modifiers of the generic kind. */
  lemma Canonical16Bx2(v: nat)
    ensures Canonicalize(Nvidia16Bx2Block(v)) == BlockLinear2D(0, 0, 0, 0xfe, v)
  {
    var m, r := Nvidia16Bx2Block(v), BlockLinear2D(0, 0, 0, 0xfe, v);
    Powers();
    BlockLinearParts(0, 0, 0, 0, v);
    BlockLinearParts(0, 0, 0, 0xfe, v);
    OnlyKindDiffers(0, 0, 0, 0, 0xfe, v);
    Fits(KIND, 0);
    Fits(KIND, 0xfe);
    CanonicalForm(m);
    SameButKindAndKind(Canonicalize(m), r);
  }

  lemma NvidiaTable()
    ensures Packed(56, NVIDIA_FIELDS)
  {
  }

  lemma PayloadFields(c: nat, s: nat, g: nat, k: nat, h: nat, j: nat)
    requires j < 6
    ensures Get(NVIDIA_FIELDS[j], Payload(c, s, g, k, h)) == And(Part(c, s, g, k, h, j), Mask(NVIDIA_FIELDS[j].width))
  {
    var us := [Update(1, 1), Update(0, h), Update(2, k), Update(3, g), Update(4, s), Update(5, c)];
    NvidiaTable();
    var at := if j == 0 then 1 else if j == 1 then 0 else j;
    assert us[at] == Update(j, Part(c, s, g, k, h, j));
    OredField(56, NVIDIA_FIELDS, us, at);
  }

  lemma PayloadOutside(c: nat, s: nat, g: nat, k: nat, h: nat)
    ensures forall i: nat :: Outside(NVIDIA_FIELDS, i) ==> !Bit(Payload(c, s, g, k, h), i)
  {
    NvidiaTable();
    OredFieldsReadBack(56, NVIDIA_FIELDS, [Update(1, 1), Update(0, h), Update(2, k), Update(3, g), Update(4, s), Update(5, c)]);
  }

  /** The argument that goes into field j of the table. */
  function Part(c: nat, s: nat, g: nat, k: nat, h: nat, j: nat): nat {
    if j == 0 then h else if j == 1 then 1 else if j == 2 then k else if j == 3 then g else if j == 4 then s else c
  }

  lemma BlockLinearField(c: nat, s: nat, g: nat, k: nat, h: nat, j: nat)
    requires j < 6
    ensures Get(NVIDIA_FIELDS[j], BlockLinear2D(c, s, g, k, h)) == And(Part(c, s, g, k, h, j), Mask(NVIDIA_FIELDS[j].width))
  {
    forall i: nat | NVIDIA_FIELDS[j].Covers(i) ensures Bit(BlockLinear2D(c, s, g, k, h), i) == Bit(Payload(c, s, g, k, h), i) {
      ModCodeBit(VENDOR_NVIDIA, Payload(c, s, g, k, h), i);
    }
    GetLocal(NVIDIA_FIELDS[j], BlockLinear2D(c, s, g, k, h), Payload(c, s, g, k, h));
    PayloadFields(c, s, g, k, h, j);
  }

  lemma BlockLinearParts(c: nat, s: nat, g: nat, k: nat, h: nat)
    ensures BlockLinear2D(c, s, g, k, h) < Pow2(64)
    ensures BlockLinear(BlockLinear2D(c, s, g, k, h))
    ensures Get(KIND, BlockLinear2D(c, s, g, k, h)) == And(k, Mask(8))
  {
    assert VENDOR_NVIDIA < Pow2(8) by { Powers(); }
    ModCodeParts(VENDOR_NVIDIA, Payload(c, s, g, k, h));
    BlockLinearField(c, s, g, k, h, 2);
    BlockLinearField(c, s, g, k, h, 1);
    MarkerSet(BlockLinear2D(c, s, g, k, h));
  }

  lemma MarkerSet(m: nat)
    requires Get(Field(4, 1), m) == And(1, Mask(1))
    ensures BlockLinear(m)
  {
    assert Mask(1) == 1;
    AndBit(1, 1, 0);
    GetBit(Field(4, 1), m, 0);
  }

  lemma OnlyKindDiffers(c: nat, s: nat, g: nat, k: nat, k': nat, h: nat)
    ensures SameButKind(BlockLinear2D(c, s, g, k, h), BlockLinear2D(c, s, g, k', h))
  {
    var m, r := BlockLinear2D(c, s, g, k, h), BlockLinear2D(c, s, g, k', h);
    forall i: nat | !KIND.Covers(i) ensures Bit(m, i) == Bit(r, i) {
      ModCodeBit(VENDOR_NVIDIA, Payload(c, s, g, k, h), i);
      ModCodeBit(VENDOR_NVIDIA, Payload(c, s, g, k', h), i);
      SamePayloadBit(c, s, g, k, k', h, i);
    }
  }

  lemma SamePayloadBit(c: nat, s: nat, g: nat, k: nat, k': nat, h: nat, i: nat)
    requires !KIND.Covers(i)
    ensures Bit(Payload(c, s, g, k, h), i) == Bit(Payload(c, s, g, k', h), i)
  {
    if Outside(NVIDIA_FIELDS, i) {
      PayloadOutside(c, s, g, k, h);
      PayloadOutside(c, s, g, k', h);
    } else {
      var j: nat :| j < 6 && NVIDIA_FIELDS[j].Covers(i);
      PayloadFields(c, s, g, k, h, j);
      PayloadFields(c, s, g, k', h, j);
      GetBit(NVIDIA_FIELDS[j], Payload(c, s, g, k, h), i - NVIDIA_FIELDS[j].shift);
      GetBit(NVIDIA_FIELDS[j], Payload(c, s, g, k', h), i - NVIDIA_FIELDS[j].shift);
    }
  }

  /** A block-linear modifier bit by bit, as the table of the header lays it out. */
  lemma BlockLinearBits(c: nat, s: nat, g: nat, k: nat, h: nat, i: nat)
    ensures Bit(BlockLinear2D(c, s, g, k, h), i) <==>
            if i < 4 then Bit(h, i) else if i == 4 then true else if i < 12 then false
            else if i < 20 then Bit(k, i - 12) else if i < 22 then Bit(g, i - 20) else if i < 23 then Bit(s, i - 22)
            else if i < 26 then Bit(c, i - 23) else if i < 56 then false else Bit(3, i - 56)
  {
    ModCodeBit(VENDOR_NVIDIA, Payload(c, s, g, k, h), i);
    if i < 56 {
      if i < 4 { PayloadBit(c, s, g, k, h, 0, i); }
      else if i == 4 { PayloadBit(c, s, g, k, h, 1, i); }
      else if 12 <= i < 20 { PayloadBit(c, s, g, k, h, 2, i); }
      else if 20 <= i < 22 { PayloadBit(c, s, g, k, h, 3, i); }
      else if i == 22 { PayloadBit(c, s, g, k, h, 4, i); }
      else if 23 <= i < 26 { PayloadBit(c, s, g, k, h, 5, i); }
      else { PayloadOutside(c, s, g, k, h); }
    }
  }

  lemma PayloadBit(c: nat, s: nat, g: nat, k: nat, h: nat, j: nat, i: nat)
    requires j < 6 && NVIDIA_FIELDS[j].Covers(i)
    ensures Bit(Payload(c, s, g, k, h), i) <==> Bit(Part(c, s, g, k, h, j), i - NVIDIA_FIELDS[j].shift)
  {
    var f := NVIDIA_FIELDS[j];
    PayloadFields(c, s, g, k, h, j);
    GetBit(f, Payload(c, s, g, k, h), i - f.shift);
    AndBit(Part(c, s, g, k, h, j), Mask(f.width), i - f.shift);
    MaskBit(f.width, i - f.shift);
  }

  // ----- Broadcom

  const PARAM := Field(8, 48)

  /** `fourcc_mod_code(BROADCOM, ((u64)params << 8) | val)` */
  function BroadcomCode(val: nat, params: nat): nat {
    ModCode(VENDOR_BROADCOM, Or(And(Shl(params, 8), Mask(64)), val))
  }

  /** Conversion to a 32-bit signed int. */
  function ToInt(x: nat): (r: int)
    ensures -0x8000_0000 <= r < 0x8000_0000 && (x - r) % 0x1_0000_0000 == 0
    ensures x < 0x8000_0000 ==> r == x
  {
    var low := x % 0x1_0000_0000;
    if low < 0x8000_0000 then low else low - 0x1_0000_0000
  }

  function BroadcomParam(m: nat): int {
    ToInt(Get(PARAM, m))
  }

  function BroadcomMod(m: nat): nat {
    And(m, ClearMask(64, PARAM))
  }

  lemma BroadcomBit(val: nat, params: nat, i: nat)
    requires val < Pow2(8)
    ensures Bit(BroadcomCode(val, params), i) <==>
            if i < 8 then Bit(val, i) else if i < 56 then Bit(params, i - 8) else Bit(7, i - 56)
  {
    ModCodeBit(VENDOR_BROADCOM, Or(And(Shl(params, 8), Mask(64)), val), i);
    OrBit(And(Shl(params, 8), Mask(64)), val, i);
    AndBit(Shl(params, 8), Mask(64), i);
    MaskBit(64, i);
    ShlBit(params, 8, i);
    BelowBits(val, 8);
  }

  lemma ParameterField(val: nat, params: nat)
    requires val < Pow2(8)
    ensures Get(PARAM, BroadcomCode(val, params)) == And(params, Mask(48))
  {
    var m := BroadcomCode(val, params);
    forall i: nat ensures Bit(Get(PARAM, m), i) == Bit(And(params, Mask(48)), i) {
      GetBit(PARAM, m, i);
      BroadcomBit(val, params, i + 8);
      AndBit(params, Mask(48), i);
      MaskBit(48, i);
    }
    SameBits(Get(PARAM, m), And(params, Mask(48)));
  }

  lemma StrippedBit(val: nat, params: nat, none: nat, i: nat)
    requires val < Pow2(8) && none == 0
    ensures Bit(BroadcomMod(BroadcomCode(val, params)), i) == Bit(BroadcomCode(val, none), i)
  {
    var m := BroadcomCode(val, params);
    BroadcomBit(val, params, i);
    BroadcomBit(val, none, i);
    AndBit(m, ClearMask(64, PARAM), i);
    ClearMaskBit(64, PARAM, i);
    if 8 <= i < 56 {
      ZeroBit(i - 8);
    } else if 64 <= i {
      VendorBits(VENDOR_BROADCOM, i - 56);
    }
  }

  lemma VendorBits(vendor: nat, i: nat)
    requires vendor < 0x100 && i >= 8
    ensures !Bit(vendor, i)
  {
    assert vendor < Pow2(8) by { Powers(); }
    BelowBits(vendor, 8);
  }

  /** The parameter is stripped for every value. */
  lemma BroadcomStripped(val: nat, params: nat)
    requires val < 0x100
    ensures BroadcomMod(BroadcomCode(val, params)) == BroadcomCode(val, 0)
  {
    assert val < Pow2(8) by { Powers(); }
    var none: nat := 0;
    forall i: nat { StrippedBit(val, params, none, i); }
    SameBits(BroadcomMod(BroadcomCode(val, params)), BroadcomCode(val, none));
  }

  /** The parameter is read back exactly when it fits the int that the macro returns. */
  lemma BroadcomParamReadBack(val: nat, params: nat)
    requires val < 0x100
    ensures BroadcomParam(BroadcomCode(val, params)) == params <==> params < 0x8000_0000
  {
    if params < 0x8000_0000 {
      assert Get(PARAM, BroadcomCode(val, params)) == params by {
        assert val < Pow2(8) by { Powers(); }
        ParameterField(val, params);
        FitsParameter(params);
      }
    }
  }

  lemma FitsParameter(params: nat)
    requires params < 0x8000_0000
    ensures And(params, Mask(48)) == params
  {
    assert params < Pow2(48) by { Powers(); }
    Fits(PARAM, params);
  }
}
