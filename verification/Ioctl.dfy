/** Ioctl numbers: `_IOC` and its decoders for every choice of size and direction widths, and the
    split of the DRM command numbers between core and drivers. */
module Ioctl {
  import opened Bits
  import opened BitFields

  /** `_IOC_SIZEBITS` and `_IOC_DIRBITS`, which an architecture may override. */
  datatype Widths = Widths(size: nat, dir: nat) {
    predicate Valid() {
      16 + size + dir <= 32
    }
  }

  datatype Command = Command(dir: nat, kind: nat, nr: nat, size: nat) {
    predicate Fits(w: Widths) {
      dir < Pow2(w.dir) && kind < Pow2(8) && nr < Pow2(8) && size < Pow2(w.size)
    }
  }

  function Table(w: Widths): seq<Field> {
    [Field(0, 8), Field(8, 8), Field(16, w.size), Field(16 + w.size, w.dir)]
  }

  /** `(dir << DIRSHIFT) | (type << TYPESHIFT) | (nr << NRSHIFT) | (size << SIZESHIFT)`, no masking */
  function Encode(w: Widths, c: Command): nat {
    Or(Or(Or(Shl(c.dir, 16 + w.size), Shl(c.kind, 8)), Shl(c.nr, 0)), Shl(c.size, 16))
  }

  function Decode(w: Widths, cmd: nat): Command {
    Command(Get(Field(16 + w.size, w.dir), cmd), Get(Field(8, 8), cmd), Get(Field(0, 8), cmd), Get(Field(16, w.size), cmd))
  }

  lemma EncodeBit(w: Widths, c: Command, i: nat)
    ensures Bit(Encode(w, c), i) <==>
            || (i >= 16 + w.size && Bit(c.dir, i - 16 - w.size))
            || (i >= 8 && Bit(c.kind, i - 8))
            || Bit(c.nr, i)
            || (i >= 16 && Bit(c.size, i - 16))
  {
    OrBit(Or(Or(Shl(c.dir, 16 + w.size), Shl(c.kind, 8)), Shl(c.nr, 0)), Shl(c.size, 16), i);
    OrBit(Or(Shl(c.dir, 16 + w.size), Shl(c.kind, 8)), Shl(c.nr, 0), i);
    OrBit(Shl(c.dir, 16 + w.size), Shl(c.kind, 8), i);
    ShlBit(c.dir, 16 + w.size, i);
    ShlBit(c.kind, 8, i);
    ShlBit(c.nr, 0, i);
    ShlBit(c.size, 16, i);
  }

  lemma DecodedFits(w: Widths, cmd: nat)
    ensures Decode(w, cmd).Fits(w)
  {
    MaskIsModulo(Shr(cmd, 16 + w.size), w.dir);
    MaskIsModulo(Shr(cmd, 8), 8);
    MaskIsModulo(Shr(cmd, 0), 8);
    MaskIsModulo(Shr(cmd, 16), w.size);
  }

  lemma FittingBits(w: Widths, c: Command)
    requires c.Fits(w)
    ensures NoBitFrom(c.dir, w.dir) && NoBitFrom(c.kind, 8) && NoBitFrom(c.nr, 8) && NoBitFrom(c.size, w.size)
  {
    BelowBits(c.dir, w.dir);
    BelowBits(c.kind, 8);
    BelowBits(c.nr, 8);
    BelowBits(c.size, w.size);
  }

  lemma FieldReadsBack(w: Widths, c: Command, f: Field, v: nat)
    requires c.Fits(w)
    requires (f, v) in {(Field(0, 8), c.nr), (Field(8, 8), c.kind), (Field(16, w.size), c.size), (Field(16 + w.size, w.dir), c.dir)}
    ensures Get(f, Encode(w, c)) == v
  {
    FittingBits(w, c);
    forall i: nat ensures Bit(Get(f, Encode(w, c)), i) == Bit(v, i) {
      GetBit(f, Encode(w, c), i);
      EncodeBit(w, c, i + f.shift);
    }
    SameBits(Get(f, Encode(w, c)), v);
  }

  /** The decoders return exactly what was encoded if and only if every argument fits its field. */
  lemma DecodeEncode(w: Widths, c: Command)
    ensures Decode(w, Encode(w, c)) == c <==> c.Fits(w)
  {
    var cmd := Encode(w, c);
    DecodedFits(w, cmd);
    if c.Fits(w) {
      FieldReadsBack(w, c, Field(0, 8), c.nr);
      FieldReadsBack(w, c, Field(8, 8), c.kind);
      FieldReadsBack(w, c, Field(16, w.size), c.size);
      FieldReadsBack(w, c, Field(16 + w.size, w.dir), c.dir);
    }
  }

  lemma EncodedBelow(w: Widths, c: Command)
    requires c.Fits(w)
    ensures Encode(w, c) < Pow2(16 + w.size + w.dir)
  {
    FittingBits(w, c);
    forall i: nat | i >= 16 + w.size + w.dir ensures !Bit(Encode(w, c), i) { EncodeBit(w, c, i); }
    BelowBits(Encode(w, c), 16 + w.size + w.dir);
  }

  lemma OutsideTable(w: Widths, i: nat)
    requires Outside(Table(w), i)
    ensures i >= 16 + w.size + w.dir
  {
    var t := Table(w);
    assert !t[0].Covers(i) && !t[1].Covers(i) && !t[2].Covers(i) && !t[3].Covers(i);
  }

  lemma SameFields(w: Widths, a: nat, b: nat)
    requires Decode(w, a) == Decode(w, b)
    ensures forall k: nat :: k < |Table(w)| ==> Get(Table(w)[k], a) == Get(Table(w)[k], b)
  {
    var t := Table(w);
    assert |t| == 4 && t[0] == Field(0, 8) && t[1] == Field(8, 8) && t[2] == Field(16, w.size) && t[3] == Field(16 + w.size, w.dir);
  }

  /** Re-encoding the decoded parts restores every number that has no bit above the direction. */
  lemma EncodeDecode(w: Widths, cmd: nat)
    ensures Encode(w, Decode(w, cmd)) == cmd <==> cmd < Pow2(16 + w.size + w.dir)
  {
    var n, again := 16 + w.size + w.dir, Encode(w, Decode(w, cmd));
    DecodedFits(w, cmd);
    EncodedBelow(w, Decode(w, cmd));
    if cmd < Pow2(n) {
      DecodeEncode(w, Decode(w, cmd));
      BelowBits(cmd, n);
      BelowBits(again, n);
      forall i: nat | Outside(Table(w), i) ensures Bit(again, i) == Bit(cmd, i) { OutsideTable(w, i); }
      SameFields(w, again, cmd);
      FieldsDetermineWord(Table(w), again, cmd);
    }
  }

  /** Two commands are equal numbers exactly when direction, type, number and size agree. */
  lemma EncodeInjective(w: Widths, c: Command, d: Command)
    requires c.Fits(w) && d.Fits(w)
    ensures Encode(w, c) == Encode(w, d) <==> c == d
    ensures w.Valid() ==> Encode(w, c) < Pow2(32)
  {
    DecodeEncode(w, c);
    DecodeEncode(w, d);
    if w.Valid() { EncodedWord(w, c, 32); }
  }

  lemma EncodedWord(w: Widths, c: Command, n: nat)
    requires c.Fits(w) && 16 + w.size + w.dir <= n
    ensures Encode(w, c) < Pow2(n)
  {
    EncodedBelow(w, c);
    Pow2Grows(16 + w.size + w.dir, n);
  }

  // ----- DRM command numbers

  const DRM_IOCTL_BASE := 0x64  // 'd'
  const DRM_COMMAND_BASE := 0x40
  const DRM_COMMAND_END := 0xA0

  /** Driver command k is number `DRM_COMMAND_BASE + k`; core numbers lie below the base or from
      `DRM_COMMAND_END` upwards. No driver command in range equals a core command, whatever the
      direction and size of either. */
  lemma DriverCommandsApart(w: Widths, k: nat, core: nat, d1: nat, s1: nat, d2: nat, s2: nat)
    requires k <= 0x5f && core < 0x100 && (core < DRM_COMMAND_BASE || DRM_COMMAND_END <= core)
    requires d1 < Pow2(w.dir) && d2 < Pow2(w.dir) && s1 < Pow2(w.size) && s2 < Pow2(w.size)
    ensures 0x40 <= DRM_COMMAND_BASE + k < 0xA0 && DRM_COMMAND_END == 0xA0
    ensures Encode(w, Command(d1, 0x64, DRM_COMMAND_BASE + k, s1)) != Encode(w, Command(d2, 0x64, core, s2))
  {
    assert Pow2(8) == 0x100 by { Powers(); }
    EncodeInjective(w, Command(d1, DRM_IOCTL_BASE, DRM_COMMAND_BASE + k, s1), Command(d2, DRM_IOCTL_BASE, core, s2));
  }
}
