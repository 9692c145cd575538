/** a.out headers: the packed `a_info` word with its in-place setters, the chain of file offsets
    and the chain of load addresses. */
module AOut {
  import opened Bits
  import opened BitFields

  const OMAGIC := 0x107  // 0407
  const NMAGIC := 0x108  // 0410
  const ZMAGIC := 0x10b  // 0413
  const QMAGIC := 0xcc   // 0314

  const MAGIC := Field(0, 16)
  const MACHTYPE := Field(16, 8)
  const FLAGS := Field(24, 8)
  const INFO := [MAGIC, MACHTYPE, FLAGS]

  lemma InfoPacked()
    ensures Packed(32, INFO)
  {
  }

  class Exec {
    var a_info: nat

    ghost predicate Valid()
      reads this
    {
      a_info < Pow2(32)
    }

    function Magic(): nat reads this { Get(MAGIC, a_info) }
    function Machtype(): nat reads this { Get(MACHTYPE, a_info) }
    function Flags(): nat reads this { Get(FLAGS, a_info) }

    /** `N_SET_INFO`: the three parts are replaced whatever the word held. */
    method SetInfo(magic: nat, machtype: nat, flags: nat)
      requires Valid()
      modifies this
      ensures Valid()
      ensures Magic() == magic % 0x1_0000 && Machtype() == machtype % 0x100 && Flags() == flags % 0x100
    {
      a_info := Or(Or(And(magic, 0xffff), Shl(And(machtype, 0xff), 16)), Shl(And(flags, 0xff), 24));
      SetInfoIsOrAll(magic, machtype, flags);
      InfoReadsBack([Update(0, magic), Update(1, machtype), Update(2, flags)], 0);
      InfoReadsBack([Update(0, magic), Update(1, machtype), Update(2, flags)], 1);
      InfoReadsBack([Update(0, magic), Update(1, machtype), Update(2, flags)], 2);
    }

    method SetMagic(magic: nat)
      requires Valid()
      modifies this
      ensures Valid()
      ensures Magic() == magic % 0x1_0000 && Machtype() == old(Machtype()) && Flags() == old(Flags())
    {
      ghost var before := a_info;
      a_info := Or(And(a_info, 0xffff_0000), And(magic, 0xffff));
      InfoWidths();
      MaskedSetter(before, 0, magic, 0xffff, 0);
    }

    method SetMachtype(machtype: nat)
      requires Valid()
      modifies this
      ensures Valid()
      ensures Magic() == old(Magic()) && Machtype() == machtype % 0x100 && Flags() == old(Flags())
    {
      ghost var before := a_info;
      a_info := Or(And(a_info, 0xff00_ffff), Shl(And(machtype, 0xff), 16));
      InfoWidths();
      MaskedSetter(before, 1, machtype, 0xff, 16);
    }

    method SetFlags(flags: nat)
      requires Valid()
      modifies this
      ensures Valid()
      ensures Magic() == old(Magic()) && Machtype() == old(Machtype()) && Flags() == flags % 0x100
    {
      ghost var before := a_info;
      a_info := Or(And(a_info, 0x00ff_ffff), Shl(And(flags, 0xff), 24));
      InfoWidths();
      MaskedSetter(before, 2, flags, 0xff, 24);
    }
  }

  lemma InfoWidths()
    ensures Mask(16) == 0xffff && Mask(8) == 0xff && Pow2(16) == 0x1_0000 && Pow2(8) == 0x100
    ensures INFO[0] == MAGIC && INFO[1] == MACHTYPE && INFO[2] == FLAGS
  {
    Powers();
  }

  lemma {:induction false} InfoReadsBack(us: seq<Update>, j: nat)
    requires |us| == 3 && us[0].field == 0 && us[1].field == 1 && us[2].field == 2 && j < 3
    ensures forall u :: u in us ==> u.field < 3
    ensures OrAll(INFO, us) < Pow2(32)
    ensures Get(INFO[j], OrAll(INFO, us)) == if j == 0 then us[j].value % 0x1_0000 else us[j].value % 0x100
  {
    InfoPacked();
    InfoWidths();
    OredField(32, INFO, us, j);
  }

  lemma SetInfoIsOrAll(magic: nat, machtype: nat, flags: nat)
    ensures Or(Or(And(magic, 0xffff), Shl(And(machtype, 0xff), 16)), Shl(And(flags, 0xff), 24))
         == OrAll(INFO, [Update(0, magic), Update(1, machtype), Update(2, flags)])
  {
    var us := [Update(0, magic), Update(1, machtype), Update(2, flags)];
    var first := And(magic, 0xffff);
    InfoWidths();
    assert us[..2][..1] == [Update(0, magic)] && us[..2][..1][..0] == [];
    assert us[..2] == [Update(0, magic), Update(1, machtype)];
    forall i: nat ensures Bit(Or(0, first), i) == Bit(first, i) { OrBit(0, first, i); ZeroBit(i); }
    SameBits(Or(0, first), first);
    assert OrAll(INFO, [Update(0, magic)]) == Or(0, Shl(first, 0));
    assert OrAll(INFO, us[..2]) == Or(first, Shl(And(machtype, 0xff), 16));
  }

  /** The constants that the three setters keep the rest of the word with. */
  function KeepMask(k: nat): nat
    requires k < 3
  {
    if k == 0 then 0xffff_0000 else if k == 1 then 0xff00_ffff else 0x00ff_ffff
  }

  lemma {:induction false} NotIsComplement(n: nat, x: nat)
    requires x < Pow2(n)
    ensures Not(n, x) == Pow2(n) - 1 - x
  {
    if n > 0 { NotIsComplement(n - 1, x / 2); }
  }

  lemma KeepMaskIs(k: nat)
    requires k < 3
    ensures KeepMask(k) == ClearMask(32, INFO[k])
  {
    InPlace();
    match k
    case 0 => NotIsComplement(32, 0xffff);
    case 1 => NotIsComplement(32, 0xff_0000);
    case 2 => NotIsComplement(32, 0xff00_0000);
  }

  lemma InPlace()
    ensures Pow2(32) == 0x1_0000_0000
    ensures Shl(Mask(16), 0) == 0xffff && Shl(Mask(8), 16) == 0xff_0000 && Shl(Mask(8), 24) == 0xff00_0000
  {
    Powers();
    ShlIsTimes(Mask(8), 16);
    ShlIsTimes(Mask(8), 24);
  }

  /** A setter masks its argument, so it is a legal update of its field for any argument. */
  lemma MaskedSetter(word: nat, k: nat, value: nat, mask: nat, shift: nat)
    requires k < 3 && word < Pow2(32) && mask == Mask(INFO[k].width) && shift == INFO[k].shift
    ensures var w := Or(And(word, KeepMask(k)), Shl(And(value, mask), shift));
            && w < Pow2(32)
            && forall j: nat :: j < 3 ==> Get(INFO[j], w) == if j == k then value % Pow2(INFO[k].width) else Get(INFO[j], word)
  {
    MaskedUpdate(word, k, value);
    SetterIsPut(word, k, value % Pow2(INFO[k].width), shift);
  }

  lemma MaskedUpdate(word: nat, k: nat, value: nat)
    requires k < 3 && word < Pow2(32)
    ensures var v := value % Pow2(INFO[k].width);
            && v == And(value, Mask(INFO[k].width)) && Put(32, INFO[k], word, v) < Pow2(32)
            && forall j: nat :: j < 3 ==> Get(INFO[j], Put(32, INFO[k], word, v)) == if j == k then v else Get(INFO[j], word)
  {
    InfoPacked();
    MaskIsModulo(value, INFO[k].width);
    OneUpdate(32, INFO, word, Update(k, value % Pow2(INFO[k].width)));
  }

  lemma SetterIsPut(word: nat, k: nat, v: nat, shift: nat)
    requires k < 3 && v < Pow2(INFO[k].width) && shift == INFO[k].shift
    ensures Or(And(word, KeepMask(k)), Shl(v, shift)) == Put(32, INFO[k], word, v)
  {
    PutUncut(32, INFO[k], word, v);
    KeepMaskIs(k);
  }

  // ----- file and memory layout

  datatype Header = Header(magic: nat, text: nat, data: nat, bss: nat, trsize: nat, drsize: nat, symsize: nat) {
    predicate BadMagic() {
      magic != OMAGIC && magic != NMAGIC && magic != ZMAGIC && magic != QMAGIC
    }

    /** `execSize` is `sizeof (struct exec)`. */
    function TextOffset(execSize: nat): int {
      if magic == ZMAGIC then (1024 - execSize) + execSize else if magic == QMAGIC then 0 else execSize
    }
    function DataOffset(execSize: nat): int { TextOffset(execSize) + text }
    function TextRelocOffset(execSize: nat): int { DataOffset(execSize) + data }
    function DataRelocOffset(execSize: nat): int { TextRelocOffset(execSize) + trsize }
    function SymbolOffset(execSize: nat): int { DataRelocOffset(execSize) + drsize }
    function StringOffset(execSize: nat): int { SymbolOffset(execSize) + symsize }

    function TextAddress(pageSize: nat): nat { if magic == QMAGIC then pageSize else 0 }
    function TextEnd(pageSize: nat): nat { TextAddress(pageSize) + text }
    function DataAddress(pageSize: nat, segment: nat): nat
      requires segment > 0
    {
      if magic == OMAGIC then TextEnd(pageSize) else Align(TextEnd(pageSize), segment)
    }
    function BssAddress(pageSize: nat, segment: nat): nat
      requires segment > 0
    {
      DataAddress(pageSize, segment) + data
    }
  }

  /** Start and size of the text, data, text relocation, data relocation and symbol sections. */
  function Sections(h: Header, execSize: nat): seq<(int, nat)> {
    [(h.TextOffset(execSize), h.text), (h.DataOffset(execSize), h.data), (h.TextRelocOffset(execSize), h.trsize),
     (h.DataRelocOffset(execSize), h.drsize), (h.SymbolOffset(execSize), h.symsize)]
  }

  /** The sections of the file lie one behind the other without gaps, up to the string table, and
      only QMAGIC has the header inside the text. */
  lemma FileLayout(h: Header, execSize: nat, i: nat, j: nat)
    requires !h.BadMagic() && 0 < execSize <= 1024 && i < j <= 5
    ensures var s := Sections(h, execSize);
            var start := if j < 5 then s[j].0 else h.StringOffset(execSize);
            && s[i].0 + s[i].1 <= start
            && (j == i + 1 ==> s[i].0 + s[i].1 == start)
    ensures h.magic != QMAGIC <==> execSize <= Sections(h, execSize)[0].0
  {
  }

  /** Which files are accepted, and where each kind starts in the file and in memory: 0407 OMAGIC, 0410
      NMAGIC, 0413 ZMAGIC and 0314 QMAGIC. */
  lemma Starts(h: Header, execSize: nat, pageSize: nat)
    ensures !h.BadMagic() <==> h.magic in {263, 264, 267, 204}
    ensures h.magic == 267 ==> h.TextOffset(execSize) == 1024 && h.TextAddress(pageSize) == 0
    ensures h.magic == 204 ==> h.TextOffset(execSize) == 0 && h.TextAddress(pageSize) == pageSize
    ensures h.magic in {263, 264} ==> h.TextOffset(execSize) == execSize && h.TextAddress(pageSize) == 0
    ensures h.StringOffset(execSize) == h.TextOffset(execSize) + h.text + h.data + h.trsize + h.drsize + h.symsize
  {
  }

  /** Rounding up to a multiple of a. */
  function Align(x: nat, a: nat): nat
    requires a > 0
  {
    (x + a - 1) / a * a
  }

  lemma AlignIsLeast(x: nat, a: nat, m: nat)
    requires a > 0
    ensures x <= Align(x, a) < x + a && Align(x, a) % a == 0
    ensures m % a == 0 && m >= x ==> Align(x, a) <= m
  {
    var q := (x + a - 1) / a;
    assert x + a - 1 == q * a + (x + a - 1) % a;
    QuotientIs(q * a, a, q, 0);
    if m % a == 0 && m >= x && m < q * a {
      var p := m / a;
      assert m == p * a;
      if p < q { NextMultiple(p, q, a); } else if q < p { NextMultiple(q, p, a); }
      assert false;
    }
  }

  /** The loaded text, data and bss are in order and disjoint, and the data starts at the text end
      for OMAGIC and otherwise at the least segment multiple that is not below it. */
  lemma LoadLayout(h: Header, pageSize: nat, segment: nat, m: nat)
    requires segment > 0
    ensures h.TextAddress(pageSize) + h.text <= h.DataAddress(pageSize, segment)
    ensures h.DataAddress(pageSize, segment) + h.data == h.BssAddress(pageSize, segment)
    ensures h.magic == 263 ==> h.DataAddress(pageSize, segment) == h.TextAddress(pageSize) + h.text
    ensures h.magic != 263 ==>
              && h.DataAddress(pageSize, segment) % segment == 0
              && (m % segment == 0 && m >= h.TextAddress(pageSize) + h.text ==> h.DataAddress(pageSize, segment) <= m)
  {
    AlignIsLeast(h.TextEnd(pageSize), segment, m);
  }
}
