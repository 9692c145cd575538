/** Words cut into a table of disjoint fields, the shape shared by format modifiers, tiling flags,
    `a_info` and ioctl numbers. One theorem covers clear-and-set updates in any order, another
    covers words ORed together from distinct fields. */
module BitFields {
  import opened Bits

  datatype Field = Field(shift: nat, width: nat) {
    predicate Covers(i: nat) {
      shift <= i < shift + width
    }
  }

  /** `(word >> SHIFT) & MASK` */
  function Get(f: Field, word: nat): nat {
    And(Shr(word, f.shift), Mask(f.width))
  }

  /** `~(MASK << SHIFT)` in an n-bit word */
  function ClearMask(n: nat, f: Field): nat {
    Not(n, Shl(Mask(f.width), f.shift))
  }

  /** `(word & CLEAR) | (value << SHIFT)`; the value is not masked, but an n-bit shift cuts it off */
  function Put(n: nat, f: Field, word: nat, value: nat): nat {
    Or(And(word, ClearMask(n, f)), And(Shl(value, f.shift), Mask(n)))
  }

  lemma GetBit(f: Field, word: nat, i: nat)
    ensures Bit(Get(f, word), i) <==> i < f.width && Bit(word, i + f.shift)
  {
    AndBit(Shr(word, f.shift), Mask(f.width), i);
    ShrBit(word, f.shift, i);
    MaskBit(f.width, i);
  }

  lemma ClearMaskBit(n: nat, f: Field, i: nat)
    ensures Bit(ClearMask(n, f), i) <==> i < n && !f.Covers(i)
  {
    NotBit(n, Shl(Mask(f.width), f.shift), i);
    ShlBit(Mask(f.width), f.shift, i);
    if i >= f.shift { MaskBit(f.width, i - f.shift); }
  }

  lemma PutBit(n: nat, f: Field, word: nat, value: nat, i: nat)
    requires word < Pow2(n)
    ensures Bit(Put(n, f, word, value), i)
       <==> (Bit(word, i) && !f.Covers(i)) || (f.shift <= i < n && Bit(value, i - f.shift))
  {
    OrBit(And(word, ClearMask(n, f)), And(Shl(value, f.shift), Mask(n)), i);
    AndBit(Shl(value, f.shift), Mask(n), i);
    MaskBit(n, i);
    AndBit(word, ClearMask(n, f), i);
    ClearMaskBit(n, f, i);
    BelowBits(word, n);
    ShlBit(value, f.shift, i);
  }

  /** Reading depends only on the covered bits. */
  lemma GetLocal(f: Field, a: nat, b: nat)
    requires forall i: nat :: f.Covers(i) ==> Bit(a, i) == Bit(b, i)
    ensures Get(f, a) == Get(f, b)
  {
    forall i: nat ensures Bit(Get(f, a), i) == Bit(Get(f, b), i) {
      GetBit(f, a, i);
      GetBit(f, b, i);
      assert i < f.width ==> f.Covers(i + f.shift);
    }
    SameBits(Get(f, a), Get(f, b));
  }

  lemma PutThenGet(n: nat, f: Field, word: nat, value: nat)
    requires word < Pow2(n) && f.shift + f.width <= n
    ensures Get(f, Put(n, f, word, value)) == And(value, Mask(f.width))
  {
    var p := Put(n, f, word, value);
    forall i: nat ensures Bit(Get(f, p), i) == Bit(And(value, Mask(f.width)), i) {
      GetBit(f, p, i);
      PutBit(n, f, word, value, i + f.shift);
      AndBit(value, Mask(f.width), i);
      MaskBit(f.width, i);
    }
    SameBits(Get(f, p), And(value, Mask(f.width)));
  }

  lemma Fits(f: Field, value: nat)
    ensures value < Pow2(f.width) <==> And(value, Mask(f.width)) == value
  {
    MaskIsModulo(value, f.width);
    if value < Pow2(f.width) { QuotientIs(value, Pow2(f.width), 0, value); }
  }

  /** The bits of a value that the shift leaves in an n-bit word. */
  lemma CutBit(n: nat, f: Field, value: nat, j: nat)
    requires f.shift <= n
    ensures Bit(value % Pow2(n - f.shift), j) <==> f.shift + j < n && Bit(value, j)
  {
    MaskIsModulo(value, n - f.shift);
    AndBit(value, Mask(n - f.shift), j);
    MaskBit(n - f.shift, j);
  }

  /** Setting a value keeps every other bit of every word exactly when what the shift leaves of the
      value fits the mask. */
  lemma PutKeepsOthers(n: nat, f: Field, value: nat)
    requires f.shift <= n
    ensures value % Pow2(n - f.shift) < Pow2(f.width) <==>
            forall word: nat, i: nat :: word < Pow2(n) && !f.Covers(i) ==> Bit(Put(n, f, word, value), i) == Bit(word, i)
  {
    var cut := value % Pow2(n - f.shift);
    BelowBits(cut, f.width);
    if cut < Pow2(f.width) {
      forall word: nat, i: nat | word < Pow2(n) && !f.Covers(i)
        ensures Bit(Put(n, f, word, value), i) == Bit(word, i)
      {
        PutBit(n, f, word, value, i);
        if i >= f.shift { CutBit(n, f, value, i - f.shift); }
      }
    } else {
      var j: nat :| j >= f.width && Bit(cut, j);
      CutBit(n, f, value, j);
      PutBit(n, f, 0, value, j + f.shift);
      ZeroBit(j + f.shift);
      assert !f.Covers(j + f.shift);
    }
  }

  /** A value that fits its mask survives the shift. */
  lemma FitsAfterShift(n: nat, f: Field, value: nat)
    requires f.shift + f.width <= n && value < Pow2(f.width)
    ensures value % Pow2(n - f.shift) < Pow2(f.width)
  {
    Pow2Grows(f.width, n - f.shift);
    QuotientIs(value, Pow2(n - f.shift), 0, value);
  }

  /** Nothing is cut off a value that fits its mask. */
  lemma PutUncut(n: nat, f: Field, word: nat, value: nat)
    requires f.shift + f.width <= n && value < Pow2(f.width)
    ensures Put(n, f, word, value) == Or(And(word, ClearMask(n, f)), Shl(value, f.shift))
  {
    var shifted := Shl(value, f.shift);
    BelowBits(value, f.width);
    forall i: nat ensures Bit(And(shifted, Mask(n)), i) == Bit(shifted, i) {
      AndBit(shifted, Mask(n), i);
      MaskBit(n, i);
      ShlBit(value, f.shift, i);
    }
    SameBits(And(shifted, Mask(n)), shifted);
  }

  lemma PutBelow(n: nat, f: Field, word: nat, value: nat)
    requires word < Pow2(n) && f.shift + f.width <= n
    ensures Put(n, f, word, value) < Pow2(n)
  {
    BelowBits(word, n);
    forall i: nat | i >= n ensures !Bit(Put(n, f, word, value), i) {
      PutBit(n, f, word, value, i);
    }
    BelowBits(Put(n, f, word, value), n);
  }

  // ----- tables

  /** Fields in increasing order, each starting no earlier than the end of the one before. */
  ghost predicate Packed(n: nat, table: seq<Field>) {
    && (forall k :: 0 <= k < |table| ==> table[k].shift + table[k].width <= n)
    && (forall k :: 0 < k < |table| ==> table[k - 1].shift + table[k - 1].width <= table[k].shift)
  }

  lemma {:induction false} Disjoint(n: nat, table: seq<Field>, j: nat, k: nat)
    requires Packed(n, table) && j < k < |table|
    ensures table[j].shift + table[j].width <= table[k].shift
  {
    if j + 1 < k { Disjoint(n, table, j, k - 1); }
  }

  ghost predicate Outside(table: seq<Field>, i: nat) {
    forall k :: 0 <= k < |table| ==> !table[k].Covers(i)
  }

  lemma OneField(n: nat, table: seq<Field>, j: nat, k: nat, i: nat)
    requires Packed(n, table) && j < |table| && k < |table| && j != k && table[j].Covers(i)
    ensures !table[k].Covers(i)
  {
    if j < k { Disjoint(n, table, j, k); } else { Disjoint(n, table, k, j); }
  }

  // ----- clear-and-set updates

  datatype Update = Update(field: nat, value: nat)

  ghost predicate Legal(table: seq<Field>, us: seq<Update>) {
    forall u :: u in us ==> u.field < |table| && u.value < Pow2(table[u.field].width)
  }

  function Apply(n: nat, table: seq<Field>, word: nat, us: seq<Update>): nat
    requires forall u :: u in us ==> u.field < |table|
  {
    if us == [] then word
    else
      var u := us[|us| - 1];
      Put(n, table[u.field], Apply(n, table, word, us[..|us| - 1]), u.value)
  }

  /** The last value written to field k, or what it held before. */
  function Latest(us: seq<Update>, k: nat, before: nat): nat {
    if us == [] then before
    else if us[|us| - 1].field == k then us[|us| - 1].value
    else Latest(us[..|us| - 1], k, before)
  }

  /** Any sequence of updates behaves as a map from field to last written value: each field reads
      back its last value, and every bit outside the table stays as it was. */
  lemma {:induction false} UpdatesAreAMap(n: nat, table: seq<Field>, word: nat, us: seq<Update>)
    requires Packed(n, table) && word < Pow2(n) && Legal(table, us)
    ensures Apply(n, table, word, us) < Pow2(n)
    ensures forall k: nat :: k < |table| ==>
              Get(table[k], Apply(n, table, word, us)) == Latest(us, k, Get(table[k], word))
    ensures forall i: nat :: Outside(table, i) ==> Bit(Apply(n, table, word, us), i) == Bit(word, i)
  {
    if us != [] {
      var u, rest := us[|us| - 1], us[..|us| - 1];
      UpdatesAreAMap(n, table, word, rest);
      OneUpdate(n, table, Apply(n, table, word, rest), u);
    }
  }

  lemma OneUpdate(n: nat, table: seq<Field>, word: nat, u: Update)
    requires Packed(n, table) && word < Pow2(n)
    requires u.field < |table| && u.value < Pow2(table[u.field].width)
    ensures Put(n, table[u.field], word, u.value) < Pow2(n)
    ensures forall k: nat :: k < |table| ==>
              Get(table[k], Put(n, table[u.field], word, u.value)) == if k == u.field then u.value else Get(table[k], word)
    ensures forall i: nat :: Outside(table, i) ==> Bit(Put(n, table[u.field], word, u.value), i) == Bit(word, i)
  {
    var f := table[u.field];
    var p := Put(n, f, word, u.value);
    PutBelow(n, f, word, u.value);
    FitsAfterShift(n, f, u.value);
    PutKeepsOthers(n, f, u.value);
    PutThenGet(n, f, word, u.value);
    Fits(f, u.value);
    forall k: nat | k < |table| && k != u.field ensures Get(table[k], p) == Get(table[k], word) {
      forall i: nat | table[k].Covers(i) ensures Bit(p, i) == Bit(word, i) {
        OneField(n, table, k, u.field, i);
      }
      GetLocal(table[k], p, word);
    }
  }

  // ----- words ORed from distinct fields

  /** `((value & MASK) << SHIFT) | ...` over the given fields */
  function OrAll(table: seq<Field>, us: seq<Update>): nat
    requires forall u :: u in us ==> u.field < |table|
  {
    if us == [] then 0
    else
      var u := us[|us| - 1];
      Or(OrAll(table, us[..|us| - 1]), Shl(And(u.value, Mask(table[u.field].width)), table[u.field].shift))
  }

  ghost predicate Distinct(us: seq<Update>) {
    forall i, j :: 0 <= i < j < |us| ==> us[i].field != us[j].field
  }

  /** Each field named once reads back its value cut to the mask, whatever the values are; fields
      not named read back zero and no bit outside the table is set. */
  lemma {:induction false} OredFieldsReadBack(n: nat, table: seq<Field>, us: seq<Update>)
    requires Packed(n, table) && Distinct(us)
    requires forall u :: u in us ==> u.field < |table|
    ensures forall k: nat :: k < |table| ==>
              Get(table[k], OrAll(table, us)) == And(Latest(us, k, 0), Mask(table[k].width))
    ensures forall i: nat :: Outside(table, i) ==> !Bit(OrAll(table, us), i)
    ensures OrAll(table, us) < Pow2(n)
  {
    if us == [] {
      forall i: nat { ZeroBit(i); }
      forall k: nat | k < |table| ensures Get(table[k], 0) == And(0, Mask(table[k].width)) {
        forall i: nat ensures Bit(Get(table[k], 0), i) == Bit(0, i) { GetBit(table[k], 0, i); }
        SameBits(Get(table[k], 0), 0);
      }
    } else {
      var u, rest := us[|us| - 1], us[..|us| - 1];
      OredFieldsReadBack(n, table, rest);
      NotNamed(rest, u.field);
      OrOneField(n, table, OrAll(table, rest), u);
    }
  }

  lemma {:induction false} LatestOfDistinct(us: seq<Update>, j: nat, before: nat)
    requires Distinct(us) && j < |us|
    ensures Latest(us, us[j].field, before) == us[j].value
  {
    if j < |us| - 1 {
      assert us[|us| - 1].field != us[j].field;
      LatestOfDistinct(us[..|us| - 1], j, before);
    }
  }

  /** One of the fields, with its value cut to its width. */
  lemma OredField(n: nat, table: seq<Field>, us: seq<Update>, j: nat)
    requires Packed(n, table) && Distinct(us) && j < |us|
    requires forall u :: u in us ==> u.field < |table|
    ensures OrAll(table, us) < Pow2(n)
    ensures us[j] in us
    ensures Get(table[us[j].field], OrAll(table, us)) == And(us[j].value, Mask(table[us[j].field].width))
    ensures And(us[j].value, Mask(table[us[j].field].width)) == us[j].value % Pow2(table[us[j].field].width)
  {
    OredFieldsReadBack(n, table, us);
    LatestOfDistinct(us, j, 0);
    assert us[j] in us;
    MaskIsModulo(us[j].value, table[us[j].field].width);
  }

  lemma {:induction false} NotNamed(us: seq<Update>, k: nat)
    requires forall u :: u in us ==> u.field != k
    ensures Latest(us, k, 0) == 0
  {
    if us != [] { NotNamed(us[..|us| - 1], k); }
  }

  /** ORing a value into a field that is zero is the same as putting it there. */
  lemma OrIsPut(n: nat, f: Field, word: nat, v: nat)
    requires word < Pow2(n) && Get(f, word) == 0 && f.shift + f.width <= n && v < Pow2(f.width)
    ensures Or(word, Shl(v, f.shift)) == Put(n, f, word, v)
  {
    BelowBits(v, f.width);
    forall i: nat ensures Bit(Or(word, Shl(v, f.shift)), i) == Bit(Put(n, f, word, v), i) {
      OrBit(word, Shl(v, f.shift), i);
      ShlBit(v, f.shift, i);
      PutBit(n, f, word, v, i);
      if f.Covers(i) { ZeroField(f, word, i); }
    }
    SameBits(Or(word, Shl(v, f.shift)), Put(n, f, word, v));
  }

  lemma ZeroField(f: Field, word: nat, i: nat)
    requires Get(f, word) == 0 && f.Covers(i)
    ensures !Bit(word, i)
  {
    GetBit(f, word, i - f.shift);
    ZeroBit(i - f.shift);
  }

  lemma OrOneField(n: nat, table: seq<Field>, word: nat, u: Update)
    requires Packed(n, table) && word < Pow2(n) && u.field < |table| && Get(table[u.field], word) == 0
    ensures var f := table[u.field];
            var w := Or(word, Shl(And(u.value, Mask(f.width)), f.shift));
            && w < Pow2(n)
            && (forall k: nat :: k < |table| ==>
                  Get(table[k], w) == if k == u.field then And(u.value, Mask(f.width)) else Get(table[k], word))
            && (forall i: nat :: Outside(table, i) ==> Bit(w, i) == Bit(word, i))
  {
    var f := table[u.field];
    var v := And(u.value, Mask(f.width));
    assert v < Pow2(f.width) by { MaskIsModulo(u.value, f.width); }
    OrIsPut(n, f, word, v);
    OneUpdate(n, table, word, Update(u.field, v));
  }

  /** Words that agree on every field and outside the table are equal. */
  lemma FieldsDetermineWord(table: seq<Field>, a: nat, b: nat)
    requires forall i: nat :: Outside(table, i) ==> Bit(a, i) == Bit(b, i)
    requires forall k: nat :: k < |table| ==> Get(table[k], a) == Get(table[k], b)
    ensures a == b
  {
    forall i: nat ensures Bit(a, i) == Bit(b, i) {
      if !Outside(table, i) {
        var k :| 0 <= k < |table| && table[k].Covers(i);
        GetBit(table[k], a, i - table[k].shift);
        GetBit(table[k], b, i - table[k].shift);
      }
    }
    SameBits(a, b);
  }
}
