/** Broadcom SAND: the image is cut into columns stored one after the other, with the number of
    lines between column starts carried as the parameter of the format modifier. */
module Sand {
  import opened Bits
  import opened Tiling
  import opened FormatModifiers

  /** Modifier type codes and column widths. */
  predicate SandType(val: nat, columnWidth: nat) {
    (val, columnWidth) in {(2, 32), (3, 64), (4, 128), (5, 256)}
  }

  function ColumnHeightModifier(val: nat, v: nat): nat {
    BroadcomCode(val, v)
  }

  /** Address of position (x, y) with columns cw wide and v lines apart. */
  function ColumnAddress(cw: nat, v: nat, x: nat, y: nat): nat
    requires cw > 0
  {
    Product(Product(x / cw, v) + y, cw) + x % cw
  }

  /** Columns are stored one after the other, v lines of the column width apart, and a line below is
      one column width further. */
  lemma ColumnSteps(cw: nat, v: nat, x: nat, y: nat)
    requires cw > 0
    ensures ColumnAddress(cw, v, x + cw, y) == ColumnAddress(cw, v, x, y) + Product(v, cw)
    ensures ColumnAddress(cw, v, x, y + 1) == ColumnAddress(cw, v, x, y) + cw
    ensures (x + 1) % cw != 0 ==> ColumnAddress(cw, v, x + 1, y) == ColumnAddress(cw, v, x, y) + 1
    ensures ColumnAddress(cw, v, 0, 0) == 0
  {
    QuotientIs(0, cw, 0, 0);
    SameColumn(x, cw);
    NextDigit(x, cw);
    var line := Product(x / cw, v) + y;
    assert Product(x / cw + 1, v) == Product(x / cw, v) + v;
    assert Product(line + v, cw) == Product(line, cw) + Product(v, cw);
    assert Product(line + 1, cw) == Product(line, cw) + cw;
  }

  lemma SameColumn(x: nat, cw: nat)
    requires cw > 0
    ensures (x + 1) % cw != 0 ==> (x + 1) / cw == x / cw && (x + 1) % cw == x % cw + 1
  {
    var q, r := x / cw, x % cw;
    if r + 1 < cw { QuotientIs(x + 1, cw, q, r + 1); } else { NextColumn(x, q, cw); }
  }

  lemma NextColumn(x: nat, q: nat, cw: nat)
    requires cw > 0 && x == q * cw + (cw - 1)
    ensures (x + 1) % cw == 0
  {
    assert x + 1 == (q + 1) * cw;
    QuotientIs(x + 1, cw, q + 1, 0);
  }

  /** The four widths of columns: modifier types 2 to 5, each twice as wide as the one before. */
  lemma Widths(val: nat, cw: nat)
    ensures SandType(val, cw) <==> 2 <= val <= 5 && cw == 8 * Pow2(val)
  {
    Powers();
  }

  lemma ColumnsApart(cw: nat, v: nat, x: nat, y: nat, x': nat, y': nat)
    requires cw > 0 && y < v && y' < v && ColumnAddress(cw, v, x, y) == ColumnAddress(cw, v, x', y')
    ensures x == x' && y == y'
  {
    Digits(Product(x / cw, v) + y, x % cw, cw);
    Digits(Product(x' / cw, v) + y', x' % cw, cw);
    Digits(x / cw, y, v);
    Digits(x' / cw, y', v);
  }

  ghost predicate Injective(cw: nat, v: nat, w: nat, h: nat)
    requires cw > 0
  {
    forall x: nat, y: nat, x': nat, y': nat | x < w && y < h && x' < w && y' < h ::
      ColumnAddress(cw, v, x, y) == ColumnAddress(cw, v, x', y') ==> x == x' && y == y'
  }

  lemma InjectiveWhenLow(cw: nat, v: nat, w: nat, h: nat)
    requires cw > 0 && h <= v
    ensures Injective(cw, v, w, h)
  {
    forall x: nat, y: nat, x': nat, y': nat |
      x < w && y < h && x' < w && y' < h && ColumnAddress(cw, v, x, y) == ColumnAddress(cw, v, x', y')
      ensures x == x' && y == y'
    {
      ColumnsApart(cw, v, x, y, x', y');
    }
  }

  lemma InjectiveWhenNarrow(cw: nat, v: nat, w: nat, h: nat)
    requires cw > 0 && w <= cw
    ensures Injective(cw, v, w, h)
  {
    forall x: nat, y: nat, x': nat, y': nat |
      x < w && y < h && x' < w && y' < h && ColumnAddress(cw, v, x, y) == ColumnAddress(cw, v, x', y')
      ensures x == x' && y == y'
    {
      FirstColumn(cw, v, x, y);
      FirstColumn(cw, v, x', y');
      Digits(y, x, cw);
      Digits(y', x', cw);
    }
  }

  lemma FirstColumn(cw: nat, v: nat, x: nat, y: nat)
    requires x < cw
    ensures ColumnAddress(cw, v, x, y) == Product(y, cw) + x
  {
    QuotientIs(x, cw, 0, x);
  }

  /** An image has all its addresses distinct exactly when it is no taller than the column height, or
      has a single column. */
  lemma InjectiveExact(cw: nat, v: nat, w: nat, h: nat)
    requires cw > 0
    ensures Injective(cw, v, w, h) <==> h <= v || w <= cw
  {
    if h <= v {
      InjectiveWhenLow(cw, v, w, h);
    } else if w <= cw {
      InjectiveWhenNarrow(cw, v, w, h);
    } else {
      QuotientIs(0, cw, 0, 0);
      QuotientIs(cw, cw, 1, 0);
      assert ColumnAddress(cw, v, 0, v) == ColumnAddress(cw, v, cw, 0);
    }
  }

  /** The column height read back from a SAND modifier separates all positions of every image that
      is no taller than it, for every height that fits the int result. */
  lemma DecodedHeightSeparates(val: nat, cw: nat, v: nat, w: nat, h: nat)
    requires SandType(val, cw) && v < 0x8000_0000 && h <= v
    ensures BroadcomParam(ColumnHeightModifier(val, v)) == v
    ensures BroadcomMod(ColumnHeightModifier(val, v)) == ColumnHeightModifier(val, 0)
    ensures Injective(cw, BroadcomParam(ColumnHeightModifier(val, v)), w, h)
  {
    BroadcomParamReadBack(val, v);
    BroadcomStripped(val, v);
    InjectiveWhenLow(cw, v, w, h);
  }
}
