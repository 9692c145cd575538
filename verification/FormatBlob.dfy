/** The KMS format/modifier blob: formats and modifiers behind a header, where each modifier entry
    covers a window of 64 formats. */
module FormatBlob {
  import opened Bits
  import opened Bytes

  const WINDOW: nat := 64
  const HEADER: nat := 24
  const ENTRY: nat := 24

  /** `struct drm_format_modifier` */
  datatype Entry = Entry(formats: nat, offset: nat, modifier: nat)

  /** Does an entry say that format i of the list has the modifier? */
  predicate Covers(e: Entry, i: nat, modifier: nat) {
    e.modifier == modifier && e.offset <= i < e.offset + WINDOW && Bit(e.formats, i - e.offset)
  }

  predicate Reads(entries: seq<Entry>, i: nat, modifier: nat) {
    exists k :: 0 <= k < |entries| && Covers(entries[k], i, modifier)
  }

  /** A relation between formats, given by their place in the list, and modifiers. */
  type Relation = (nat, nat) -> bool

  /** One bit for each format from `from` to `to` that is below `count` and has the modifier. */
  function Window(supports: Relation, count: nat, modifier: nat, from: nat, to: nat): nat
    requires from <= to
    decreases if from <= to then to - from else 0
  {
    if from == to then 0
    else (if from < count && supports(from, modifier) then 1 else 0) + 2 * Window(supports, count, modifier, from + 1, to)
  }

  lemma {:induction false} WindowBit(supports: Relation, count: nat, modifier: nat, from: nat, to: nat, i: nat)
    requires from <= to
    ensures Bit(Window(supports, count, modifier, from, to), i) <==> from + i < to && from + i < count && supports(from + i, modifier)
    decreases if from <= to then to - from else 0
  {
    if from == to {
      ZeroBit(i);
    } else if i > 0 {
      assert Window(supports, count, modifier, from, to) / 2 == Window(supports, count, modifier, from + 1, to);
      WindowBit(supports, count, modifier, from + 1, to, i - 1);
    }
  }

  lemma WindowBelow(supports: Relation, count: nat, modifier: nat, from: nat, to: nat)
    requires from <= to
    ensures Window(supports, count, modifier, from, to) < Pow2(to - from)
  {
    var w := Window(supports, count, modifier, from, to);
    forall i: nat | i >= to - from ensures !Bit(w, i) { WindowBit(supports, count, modifier, from, to, i); }
    BelowBits(w, to - from);
  }

  /** The entry for window w of one modifier. */
  function MakeEntry(supports: Relation, count: nat, modifier: nat, w: nat): Entry {
    Entry(Window(supports, count, modifier, WINDOW * w, WINDOW * (w + 1)), WINDOW * w, modifier)
  }

  /** How many windows cover all formats. */
  function Windows(count: nat): nat {
    (count + WINDOW - 1) / WINDOW
  }

  /** An aligned window that starts at one of the formats, for one of the modifiers. */
  predicate WellFormed(e: Entry, count: nat, modifiers: seq<nat>) {
    e.offset % WINDOW == 0 && e.offset < count && e.formats < Pow2(WINDOW) && e.modifier in modifiers
  }

  lemma MakeEntryCovers(supports: Relation, count: nat, modifier: nat, w: nat, i: nat, m: nat)
    ensures Covers(MakeEntry(supports, count, modifier, w), i, m) <==>
            m == modifier && WINDOW * w <= i < WINDOW * (w + 1) && i < count && supports(i, modifier)
  {
    if WINDOW * w <= i { WindowBit(supports, count, modifier, WINDOW * w, WINDOW * (w + 1), i - WINDOW * w); }
  }

  lemma ReadsAppend(entries: seq<Entry>, e: Entry, i: nat, modifier: nat)
    ensures Reads(entries + [e], i, modifier) <==> Reads(entries, i, modifier) || Covers(e, i, modifier)
  {
    var all := entries + [e];
    assert all[|entries|] == e;
    if Reads(entries, i, modifier) {
      var k :| 0 <= k < |entries| && Covers(entries[k], i, modifier);
      assert Covers(all[k], i, modifier);
    }
  }

  /** Build the entries for any relation between `count` formats and the listed modifiers: one for
      each modifier and window. Reading them back through offset and mask gives exactly that relation. */
  method Build(count: nat, modifiers: seq<nat>, supports: Relation) returns (entries: seq<Entry>)
    ensures forall i: nat, m: nat :: Reads(entries, i, m) <==> m in modifiers && i < count && supports(i, m)
    ensures |entries| == |modifiers| * Windows(count)
    ensures forall e :: e in entries ==> WellFormed(e, count, modifiers)
  {
    entries := [];
    for j := 0 to |modifiers|
      invariant forall i: nat, m: nat :: Reads(entries, i, m) <==> m in modifiers[..j] && i < count && supports(i, m)
      invariant |entries| == j * Windows(count)
      invariant forall e :: e in entries ==> WellFormed(e, count, modifiers)
    {
      entries := AddModifier(entries, count, modifiers, j, supports);
      assert modifiers[..j + 1] == modifiers[..j] + [modifiers[j]];
      assert (j + 1) * Windows(count) == j * Windows(count) + Windows(count);
    }
    assert modifiers[..|modifiers|] == modifiers;
  }

  method AddModifier(before: seq<Entry>, count: nat, modifiers: seq<nat>, j: nat, supports: Relation) returns (entries: seq<Entry>)
    requires j < |modifiers| && forall e :: e in before ==> WellFormed(e, count, modifiers)
    ensures forall i: nat, m: nat :: Reads(entries, i, m) <==>
              Reads(before, i, m) || (m == modifiers[j] && i < count && supports(i, m))
    ensures |entries| == |before| + Windows(count)
    ensures forall e :: e in entries ==> WellFormed(e, count, modifiers)
  {
    entries := before;
    var w, modifier := 0, modifiers[j];
    while WINDOW * w < count
      invariant w <= Windows(count) && |entries| == |before| + w
      invariant Added(before, entries, count, modifier, supports, w)
      invariant forall e :: e in entries ==> WellFormed(e, count, modifiers)
      decreases count - WINDOW * w
    {
      var e := MakeEntry(supports, count, modifier, w);
      assert WellFormed(e, count, modifiers) by { EntryWellFormed(supports, count, modifiers, j, w); }
      AddedNext(before, entries, count, modifier, supports, w);
      entries := entries + [e];
      w := w + 1;
    }
  }

  lemma EntryWellFormed(supports: Relation, count: nat, modifiers: seq<nat>, j: nat, w: nat)
    requires j < |modifiers| && WINDOW * w < count
    ensures WellFormed(MakeEntry(supports, count, modifiers[j], w), count, modifiers)
  {
    WindowBelow(supports, count, modifiers[j], WINDOW * w, WINDOW * (w + 1));
  }

  /** The first w windows of a modifier have been added. */
  ghost predicate Added(before: seq<Entry>, entries: seq<Entry>, count: nat, modifier: nat, supports: Relation, w: nat) {
    forall i: nat, m: nat :: Reads(entries, i, m) <==>
      Reads(before, i, m) || (m == modifier && i < WINDOW * w && i < count && supports(i, m))
  }

  lemma AddedNext(before: seq<Entry>, entries: seq<Entry>, count: nat, modifier: nat, supports: Relation, w: nat)
    requires Added(before, entries, count, modifier, supports, w)
    ensures Added(before, entries + [MakeEntry(supports, count, modifier, w)], count, modifier, supports, w + 1)
  {
    var e := MakeEntry(supports, count, modifier, w);
    forall i: nat, m: nat
      ensures Reads(entries + [e], i, m) <==>
              Reads(before, i, m) || (m == modifier && i < WINDOW * (w + 1) && i < count && supports(i, m))
    {
      ReadsAppend(entries, e, i, m);
      MakeEntryCovers(supports, count, modifier, w, i, m);
    }
  }

  // ----- bytes

  function Concat(records: seq<seq<Byte>>): seq<Byte> {
    if records == [] then [] else records[0] + Concat(records[1..])
  }

  lemma {:induction false} ConcatAt(records: seq<seq<Byte>>, size: nat, k: nat)
    requires forall i :: 0 <= i < |records| ==> |records[i]| == size
    requires k < |records|
    ensures size * k + size <= |Concat(records)| && Concat(records)[size * k..size * k + size] == records[k]
  {
    if k > 0 {
      ConcatAt(records[1..], size, k - 1);
      assert size * k == size + size * (k - 1);
      assert Concat(records)[size * k..size * k + size] == Concat(records[1..])[size * (k - 1)..size * (k - 1) + size];
    } else {
      assert Concat(records)[..size] == records[0];
    }
  }

  function EntryRecord(e: Entry): (b: seq<Byte>)
    ensures |b| == ENTRY
  {
    LittleEndian(e.formats, 8) + LittleEndian(e.offset, 4) + LittleEndian(0, 4) + LittleEndian(e.modifier, 8)
  }

  function WordRecords(words: seq<nat>): seq<seq<Byte>> {
    seq(|words|, i requires 0 <= i < |words| => LittleEndian(words[i], 4))
  }

  function EntryRecords(entries: seq<Entry>): seq<seq<Byte>> {
    seq(|entries|, i requires 0 <= i < |entries| => EntryRecord(entries[i]))
  }

  /** The modifiers start at the next multiple of 8 behind the formats. */
  function ModifiersOffset(count: nat): nat {
    HEADER + 4 * count + (if count % 2 == 1 then 4 else 0)
  }

  /** version, flags, count_formats, formats_offset, count_modifiers, modifiers_offset */
  function HeaderWords(count: nat, entries: nat): seq<nat> {
    [1, 0, count, HEADER, entries, ModifiersOffset(count)]
  }

  function Header(count: nat, entries: nat): (b: seq<Byte>)
    ensures |b| == HEADER
  {
    ConcatLength(WordRecords(HeaderWords(count, entries)), 4);
    Concat(WordRecords(HeaderWords(count, entries)))
  }

  function Padding(count: nat): seq<Byte> {
    if count % 2 == 1 then [0, 0, 0, 0] else []
  }

  function Serialize(formats: seq<nat>, entries: seq<Entry>): seq<Byte> {
    Header(|formats|, |entries|) + Concat(WordRecords(formats)) + Padding(|formats|) + Concat(EntryRecords(entries))
  }

  /** A little-endian field of n bytes; 0 outside the blob. */
  function Field(b: seq<Byte>, at: nat, n: nat): nat {
    if at + n <= |b| then FromLittleEndian(b[at..at + n]) else 0
  }

  /** What a client reads: everything is found through the header's counts and offsets. */
  function ReadFormat(b: seq<Byte>, i: nat): nat {
    Field(b, Field(b, 12, 4) + 4 * i, 4)
  }

  function ReadEntry(b: seq<Byte>, k: nat): Entry {
    var at := Field(b, 20, 4) + ENTRY * k;
    Entry(Field(b, at, 8), Field(b, at + 8, 4), Field(b, at + 16, 8))
  }

  ghost predicate Encodable(formats: seq<nat>, entries: seq<Entry>) {
    && |entries| < Pow256(4) && ModifiersOffset(|formats|) < Pow256(4)
    && (forall i :: 0 <= i < |formats| ==> formats[i] < Pow256(4))
    && (forall k :: 0 <= k < |entries| ==>
          entries[k].formats < Pow256(8) && entries[k].offset < Pow256(4) && entries[k].modifier < Pow256(8))
  }

  lemma FieldOf(b: seq<Byte>, at: nat, n: nat, v: nat)
    requires at + n <= |b| && b[at..at + n] == LittleEndian(v, n) && v < Pow256(n)
    ensures Field(b, at, n) == v
  {
    ReadsBack(v, n);
  }

  // ----- where things are

  lemma Pieces(h: seq<Byte>, f: seq<Byte>, p: seq<Byte>, e: seq<Byte>)
    ensures (h + f + p + e)[..|h|] == h
    ensures (h + f + p + e)[|h|..|h| + |f|] == f
    ensures (h + f + p + e)[|h| + |f| + |p|..] == e
  {
  }

  lemma {:induction false} ConcatLength(records: seq<seq<Byte>>, size: nat)
    requires forall i :: 0 <= i < |records| ==> |records[i]| == size
    ensures |Concat(records)| == size * |records|
  {
    if records != [] {
      ConcatLength(records[1..], size);
      assert size * |records| == size + size * (|records| - 1);
    }
  }

  /** Header, formats and modifiers of a blob, each at its offset. */
  ghost predicate Holds(b: seq<Byte>, formats: seq<nat>, entries: seq<Entry>) {
    var mo := ModifiersOffset(|formats|);
    && |b| == mo + ENTRY * |entries|
    && b[..HEADER] == Header(|formats|, |entries|)
    && b[HEADER..HEADER + 4 * |formats|] == Concat(WordRecords(formats))
    && b[mo..] == Concat(EntryRecords(entries))
  }

  /** The areas follow one another without overlap: header, formats, padding, modifiers. */
  lemma Areas(formats: seq<nat>, entries: seq<Entry>)
    ensures Holds(Serialize(formats, entries), formats, entries)
    ensures 24 + 4 * |formats| <= ModifiersOffset(|formats|) < 24 + 4 * |formats| + 8 && ModifiersOffset(|formats|) % 8 == 0
  {
    var h, f, p, e := Header(|formats|, |entries|), Concat(WordRecords(formats)), Padding(|formats|), Concat(EntryRecords(entries));
    ConcatLength(WordRecords(formats), 4);
    ConcatLength(EntryRecords(entries), ENTRY);
    Offsets(|formats|);
    Pieces(h, f, p, e);
  }

  lemma Offsets(count: nat)
    ensures 24 + 4 * count + |Padding(count)| == ModifiersOffset(count) < 24 + 4 * count + 8 && ModifiersOffset(count) % 8 == 0
  {
  }

  lemma SliceOfSlice(b: seq<Byte>, at: nat, size: nat, from: nat, n: nat)
    requires at + size <= |b| && from + n <= size
    ensures b[at + from..at + from + n] == b[at..at + size][from..from + n]
  {
    var s := b[at..at + size];
    forall p | at + from <= p < at + from + n ensures b[p] == s[p - at] {}
    assert b[at + from..at + from + n] == s[from..from + n];
  }

  /** Record k of an area that starts at `start`. */
  lemma RecordAt(b: seq<Byte>, start: nat, records: seq<seq<Byte>>, size: nat, k: nat)
    requires forall i :: 0 <= i < |records| ==> |records[i]| == size
    requires start + size * |records| <= |b| && b[start..start + size * |records|] == Concat(records) && k < |records|
    ensures start + size * k + size <= |b| && b[start + size * k..start + size * k + size] == records[k]
  {
    ConcatAt(records, size, k);
    ConcatLength(records, size);
    SliceOfSlice(b, start, size * |records|, size * k, size);
  }

  /** Word i of an area of 32-bit words. */
  lemma WordAt(b: seq<Byte>, start: nat, words: seq<nat>, i: nat)
    requires start + 4 * |words| <= |b| && b[start..start + 4 * |words|] == Concat(WordRecords(words))
    requires i < |words| && words[i] < Pow256(4)
    ensures Field(b, start + 4 * i, 4) == words[i]
  {
    RecordAt(b, start, WordRecords(words), 4, i);
    FieldOf(b, start + 4 * i, 4, words[i]);
  }

  lemma HeaderFields(b: seq<Byte>, formats: seq<nat>, entries: seq<Entry>)
    requires Encodable(formats, entries) && Holds(b, formats, entries)
    ensures Field(b, 0, 4) == 1 && Field(b, 4, 4) == 0
    ensures Field(b, 8, 4) == |formats| && Field(b, 12, 4) == HEADER
    ensures Field(b, 16, 4) == |entries| && Field(b, 20, 4) == ModifiersOffset(|formats|)
  {
    HeaderWord(b, formats, entries, 0);
    HeaderWord(b, formats, entries, 1);
    HeaderWord(b, formats, entries, 2);
    HeaderWord(b, formats, entries, 3);
    HeaderWord(b, formats, entries, 4);
    HeaderWord(b, formats, entries, 5);
  }

  lemma HeaderWord(b: seq<Byte>, formats: seq<nat>, entries: seq<Entry>, i: nat)
    requires Encodable(formats, entries) && Holds(b, formats, entries) && i < 6
    ensures Field(b, 4 * i, 4) == HeaderWords(|formats|, |entries|)[i]
  {
    assert Pow256(4) == 0x1_0000_0000 by { Widths(); }
    assert b[0..24] == b[..HEADER];
    WordAt(b, 0, HeaderWords(|formats|, |entries|), i);
  }

  lemma FormatReadsBack(b: seq<Byte>, formats: seq<nat>, entries: seq<Entry>, i: nat)
    requires Encodable(formats, entries) && Holds(b, formats, entries) && i < |formats|
    ensures ReadFormat(b, i) == formats[i]
  {
    HeaderFields(b, formats, entries);
    WordAt(b, HEADER, formats, i);
  }

  lemma EntryRecordAt(b: seq<Byte>, mo: nat, entries: seq<Entry>, k: nat)
    requires |b| == mo + ENTRY * |entries| && b[mo..] == Concat(EntryRecords(entries)) && k < |entries|
    ensures mo + ENTRY * k + ENTRY <= |b| && b[mo + ENTRY * k..mo + ENTRY * k + ENTRY] == EntryRecord(entries[k])
  {
    assert b[mo..mo + ENTRY * |entries|] == b[mo..];
    RecordAt(b, mo, EntryRecords(entries), ENTRY, k);
  }

  lemma EntryRecordSlices(e: Entry)
    ensures EntryRecord(e)[0..8] == LittleEndian(e.formats, 8)
    ensures EntryRecord(e)[8..12] == LittleEndian(e.offset, 4)
    ensures EntryRecord(e)[16..24] == LittleEndian(e.modifier, 8)
  {
    FourPieces(LittleEndian(e.formats, 8), LittleEndian(e.offset, 4), LittleEndian(0, 4), LittleEndian(e.modifier, 8));
  }

  lemma FourPieces(a: seq<Byte>, b: seq<Byte>, c: seq<Byte>, d: seq<Byte>)
    ensures (a + b + c + d)[0..|a|] == a && (a + b + c + d)[|a|..|a| + |b|] == b
    ensures (a + b + c + d)[|a| + |b| + |c|..|a| + |b| + |c| + |d|] == d
  {
  }

  lemma EntryField(b: seq<Byte>, at: nat, e: Entry, from: nat, n: nat, v: nat)
    requires at + ENTRY <= |b| && b[at..at + ENTRY] == EntryRecord(e) && from + n <= ENTRY
    requires EntryRecord(e)[from..from + n] == LittleEndian(v, n) && v < Pow256(n)
    ensures Field(b, at + from, n) == v
  {
    SliceOfSlice(b, at, ENTRY, from, n);
    FieldOf(b, at + from, n, v);
  }

  lemma EntryAt(b: seq<Byte>, at: nat, e: Entry)
    requires at + ENTRY <= |b| && b[at..at + ENTRY] == EntryRecord(e)
    requires e.formats < Pow256(8) && e.offset < Pow256(4) && e.modifier < Pow256(8)
    ensures Field(b, at, 8) == e.formats && Field(b, at + 8, 4) == e.offset && Field(b, at + 16, 8) == e.modifier
  {
    EntryRecordSlices(e);
    EntryField(b, at, e, 0, 8, e.formats);
    EntryField(b, at, e, 8, 4, e.offset);
    EntryField(b, at, e, 16, 8, e.modifier);
  }

  lemma EntryReadsBack(b: seq<Byte>, formats: seq<nat>, entries: seq<Entry>, k: nat)
    requires Encodable(formats, entries) && Holds(b, formats, entries) && k < |entries|
    ensures ReadEntry(b, k) == entries[k]
  {
    var mo := ModifiersOffset(|formats|);
    assert Field(b, 20, 4) == mo by { HeaderFields(b, formats, entries); }
    EntryFields(b, mo, entries, k);
  }

  lemma EntryFields(b: seq<Byte>, mo: nat, entries: seq<Entry>, k: nat)
    requires |b| == mo + ENTRY * |entries| && b[mo..] == Concat(EntryRecords(entries)) && k < |entries|
    requires entries[k].formats < Pow256(8) && entries[k].offset < Pow256(4) && entries[k].modifier < Pow256(8)
    ensures var at := mo + ENTRY * k; Entry(Field(b, at, 8), Field(b, at + 8, 4), Field(b, at + 16, 8)) == entries[k]
  {
    EntryRecordAt(b, mo, entries, k);
    EntryAt(b, mo + ENTRY * k, entries[k]);
  }

  /** Does the blob say that format i has the modifier? */
  ghost predicate BlobSays(b: seq<Byte>, i: nat, modifier: nat) {
    exists k: nat :: k < Field(b, 16, 4) && Covers(ReadEntry(b, k), i, modifier)
  }

  /** Reading the blob through its header returns exactly the formats and the relation that the
      entries were built for. */
  lemma BlobRoundTrip(formats: seq<nat>, entries: seq<Entry>, i: nat, modifier: nat)
    requires Encodable(formats, entries)
    ensures var b := Serialize(formats, entries);
            && Field(b, 0, 4) == 1 && Field(b, 4, 4) == 0 && Field(b, 8, 4) == |formats|
            && (i < |formats| ==> ReadFormat(b, i) == formats[i])
            && (BlobSays(b, i, modifier) <==> Reads(entries, i, modifier))
  {
    Areas(formats, entries);
    BlobReadsBack(Serialize(formats, entries), formats, entries, i, modifier);
  }

  lemma BlobReadsBack(b: seq<Byte>, formats: seq<nat>, entries: seq<Entry>, i: nat, modifier: nat)
    requires Encodable(formats, entries) && Holds(b, formats, entries)
    ensures Field(b, 0, 4) == 1 && Field(b, 4, 4) == 0 && Field(b, 8, 4) == |formats|
    ensures i < |formats| ==> ReadFormat(b, i) == formats[i]
    ensures BlobSays(b, i, modifier) <==> Reads(entries, i, modifier)
  {
    HeaderFields(b, formats, entries);
    if i < |formats| { FormatReadsBack(b, formats, entries, i); }
    forall k: nat | k < |entries| ensures ReadEntry(b, k) == entries[k] { EntryReadsBack(b, formats, entries, k); }
    if Reads(entries, i, modifier) {
      var k :| 0 <= k < |entries| && Covers(entries[k], i, modifier);
      assert Covers(ReadEntry(b, k), i, modifier);
    }
  }

  lemma FiveBits(i: nat)
    ensures Bit(5, i) <==> i == 0 || i == 2
  {
    if i >= 3 { assert 5 < Pow2(3); BelowBits(5, 3); }
  }

  /** The header's first example: formats 0 and 2 of fewer than 65. */
  lemma FirstExample(supports: Relation, count: nat, modifier: nat)
    requires 3 <= count <= 64 && forall i: nat :: supports(i, modifier) <==> i == 0 || i == 2
    ensures MakeEntry(supports, count, modifier, 0) == Entry(5, 0, modifier)
  {
    var e := MakeEntry(supports, count, modifier, 0);
    forall i: nat ensures Bit(e.formats, i) == Bit(5, i) {
      WindowBit(supports, count, modifier, 0, 64, i);
      FiveBits(i);
    }
    SameBits(e.formats, 5);
  }

  lemma FiveOnes(n: nat, v: nat)
    requires n == 34 && v == 0x7c00000000
    ensures forall i: nat :: Bit(v, i) <==> n <= i < n + 5
  {
    assert v == Shl(Mask(5), n) by { ShlIsTimes(Mask(5), n); Pow2Adds(32, 2); Powers(); }
    forall i: nat ensures Bit(v, i) <==> n <= i < n + 5 {
      ShlBit(Mask(5), n, i);
      if i >= n { MaskBit(5, i - n); }
    }
  }

  /** Its second example: formats 98 to 102 of 128 are in the window at offset 64. */
  lemma SecondExample(supports: Relation, modifier: nat)
    requires forall i: nat :: supports(i, modifier) <==> 98 <= i <= 102
    ensures MakeEntry(supports, 128, modifier, 1) == Entry(0x7c00000000, 64, modifier)
  {
    var e := MakeEntry(supports, 128, modifier, 1);
    FiveOnes(34, 0x7c00000000);
    forall i: nat ensures Bit(e.formats, i) == Bit(0x7c00000000, i) {
      WindowBit(supports, 128, modifier, 64, 128, i);
    }
    SameBits(e.formats, 0x7c00000000);
  }

  // ----- from a relation to bytes and back

  /** The counts and offsets of the blob fit their 32-bit fields, and so do formats and modifiers. */
  ghost predicate Publishable(formats: seq<nat>, modifiers: seq<nat>) {
    && ModifiersOffset(|formats|) < Pow256(4) && |modifiers| * Windows(|formats|) < Pow256(4)
    && (forall i :: 0 <= i < |formats| ==> formats[i] < Pow256(4))
    && (forall m :: m in modifiers ==> m < Pow256(8))
  }

  lemma BuiltIsEncodable(formats: seq<nat>, modifiers: seq<nat>, entries: seq<Entry>)
    requires Publishable(formats, modifiers) && |entries| == |modifiers| * Windows(|formats|)
    requires forall e :: e in entries ==> WellFormed(e, |formats|, modifiers)
    ensures Encodable(formats, entries)
  {
    assert Pow2(WINDOW) == Pow256(8) by { Powers(); Widths(); }
    forall k | 0 <= k < |entries|
      ensures entries[k].formats < Pow256(8) && entries[k].offset < Pow256(4) && entries[k].modifier < Pow256(8)
    {
      assert entries[k] in entries;
    }
  }

  /** The whole way: a blob built for a list of formats and any relation to modifiers, read through
      its header, gives back the formats and exactly that relation. */
  method Publish(formats: seq<nat>, modifiers: seq<nat>, supports: Relation) returns (blob: seq<Byte>)
    requires Publishable(formats, modifiers)
    ensures Field(blob, 0, 4) == 1 && Field(blob, 4, 4) == 0 && Field(blob, 8, 4) == |formats|
    ensures forall i :: 0 <= i < |formats| ==> ReadFormat(blob, i) == formats[i]
    ensures forall i: nat, m: nat :: BlobSays(blob, i, m) <==> m in modifiers && i < |formats| && supports(i, m)
  {
    var entries := Build(|formats|, modifiers, supports);
    BuiltIsEncodable(formats, modifiers, entries);
    blob := Serialize(formats, entries);
    BlobRoundTrip(formats, entries, 0, 0);
    forall i: nat | i < |formats| ensures ReadFormat(blob, i) == formats[i] {
      BlobRoundTrip(formats, entries, i, 0);
    }
    forall i: nat, m: nat ensures BlobSays(blob, i, m) <==> m in modifiers && i < |formats| && supports(i, m) {
      BlobRoundTrip(formats, entries, i, m);
    }
  }
}
