/** Relocation with presumed addresses, for i915 execbuffer, msm and etnaviv submits. A relocation
    site is skipped when its presumed address is still the address of its target. This module has
    the core: one buffer, its sites, full relocation, and relocation that skips. */
module Relocation {
  import opened Bits
  import opened Bytes

  /** How the word at a site follows from the target address: `addr + delta` (i915, etnaviv), or
      `((addr + offset) << shift) | bits` with a negative shift to the right (msm, 32-bit words). */
  datatype Form =
    | Sum(delta: nat, bytes: nat)
    | Shifted(offset: nat, shift: int, bits: nat)
  {
    function Width(): nat {
      if Sum? then bytes else 4
    }

    function Word(addr: nat): nat {
      if Sum? then addr + delta
      else Or(if shift >= 0 then Shl(addr + offset, shift) else Shr(addr + offset, -shift), bits)
    }

    function Image(addr: nat): (b: seq<Byte>)
      ensures |b| == Width()
    {
      LittleEndian(Word(addr), Width())
    }
  }

  datatype Site = Site(offset: nat, target: nat, form: Form) {
    function End(): nat {
      offset + form.Width()
    }
  }

  function Overwrite(buf: seq<Byte>, at: nat, b: seq<Byte>): (r: seq<Byte>)
    requires at + |b| <= |buf|
    ensures |r| == |buf|
  {
    buf[..at] + b + buf[at + |b|..]
  }

  ghost predicate InBounds(buf: seq<Byte>, sites: seq<Site>, addr: seq<nat>) {
    forall i :: 0 <= i < |sites| ==> sites[i].End() <= |buf| && sites[i].target < |addr|
  }

  ghost predicate Apart(sites: seq<Site>) {
    forall i, j :: 0 <= i < j < |sites| ==> sites[i].End() <= sites[j].offset || sites[j].End() <= sites[i].offset
  }

  predicate Holds(buf: seq<Byte>, s: Site, addr: nat)
    requires s.End() <= |buf|
  {
    buf[s.offset..s.End()] == s.form.Image(addr)
  }

  /** Every site patched, the first n of them. */
  function Full(buf: seq<Byte>, sites: seq<Site>, addr: seq<nat>, n: nat): (r: seq<Byte>)
    requires n <= |sites| && InBounds(buf, sites, addr)
    ensures |r| == |buf|
  {
    if n == 0 then buf
    else
      var s := sites[n - 1];
      Overwrite(Full(buf, sites, addr, n - 1), s.offset, s.form.Image(addr[s.target]))
  }

  /** The sites whose presumed address is out of date patched, among the first n. */
  function Skipping(buf: seq<Byte>, sites: seq<Site>, presumed: seq<nat>, addr: seq<nat>, n: nat): (r: seq<Byte>)
    requires n <= |sites| == |presumed| && InBounds(buf, sites, addr)
    ensures |r| == |buf|
  {
    if n == 0 then buf
    else
      var s := sites[n - 1];
      var before := Skipping(buf, sites, presumed, addr, n - 1);
      if presumed[n - 1] == addr[s.target] then before
      else Overwrite(before, s.offset, s.form.Image(addr[s.target]))
  }

  function Current(sites: seq<Site>, addr: seq<nat>): (r: seq<nat>)
    requires forall i :: 0 <= i < |sites| ==> sites[i].target < |addr|
    ensures |r| == |sites|
    ensures forall i :: 0 <= i < |sites| ==> r[i] == addr[sites[i].target]
  {
    seq(|sites|, i requires 0 <= i < |sites| => addr[sites[i].target])
  }

  /** What user space promises of a buffer: disjoint sites that hold their presumed addresses. */
  ghost predicate Ready(buf: seq<Byte>, sites: seq<Site>, presumed: seq<nat>) {
    && |presumed| == |sites|
    && Apart(sites)
    && forall i :: 0 <= i < |sites| ==> sites[i].End() <= |buf| && Holds(buf, sites[i], presumed[i])
  }

  lemma OverwriteSame(buf: seq<Byte>, at: nat, b: seq<Byte>)
    requires at + |b| <= |buf| && buf[at..at + |b|] == b
    ensures Overwrite(buf, at, b) == buf
  {
    assert buf == buf[..at] + buf[at..at + |b|] + buf[at + |b|..];
  }

  lemma OverwriteElsewhere(buf: seq<Byte>, at: nat, b: seq<Byte>, from: nat, to: nat)
    requires at + |b| <= |buf| && from <= to <= |buf| && (to <= at || at + |b| <= from)
    ensures Overwrite(buf, at, b)[from..to] == buf[from..to]
  {
    var r := Overwrite(buf, at, b);
    forall p | from <= p < to ensures r[p] == buf[p] {}
    assert r[from..to] == buf[from..to];
  }

  lemma OverwriteThere(buf: seq<Byte>, at: nat, b: seq<Byte>)
    requires at + |b| <= |buf|
    ensures Overwrite(buf, at, b)[at..at + |b|] == b
  {
  }

  ghost predicate Covered(sites: seq<Site>, n: nat, p: nat)
    requires n <= |sites|
  {
    exists i :: 0 <= i < n && sites[i].offset <= p < sites[i].End()
  }

  /** Sites that have not been reached yet are untouched. */
  lemma {:induction false} FullKeeps(buf: seq<Byte>, sites: seq<Site>, addr: seq<nat>, n: nat, i: nat)
    requires n <= i < |sites| && InBounds(buf, sites, addr) && Apart(sites)
    ensures Full(buf, sites, addr, n)[sites[i].offset..sites[i].End()] == buf[sites[i].offset..sites[i].End()]
  {
    if n > 0 {
      FullKeeps(buf, sites, addr, n - 1, i);
      var s := sites[n - 1];
      OverwriteElsewhere(Full(buf, sites, addr, n - 1), s.offset, s.form.Image(addr[s.target]), sites[i].offset, sites[i].End());
    }
  }

  lemma {:induction false} FullHolds(buf: seq<Byte>, sites: seq<Site>, addr: seq<nat>, n: nat, i: nat)
    requires i < n <= |sites| && InBounds(buf, sites, addr) && Apart(sites)
    ensures Holds(Full(buf, sites, addr, n), sites[i], addr[sites[i].target])
  {
    var s := sites[n - 1];
    var before, image := Full(buf, sites, addr, n - 1), s.form.Image(addr[s.target]);
    if i == n - 1 {
      OverwriteThere(before, s.offset, image);
    } else {
      FullHolds(buf, sites, addr, n - 1, i);
      OverwriteElsewhere(before, s.offset, image, sites[i].offset, sites[i].End());
    }
  }

  lemma {:induction false} FullOutside(buf: seq<Byte>, sites: seq<Site>, addr: seq<nat>, n: nat, p: nat)
    requires n <= |sites| && InBounds(buf, sites, addr) && p < |buf| && !Covered(sites, n, p)
    ensures Full(buf, sites, addr, n)[p] == buf[p]
  {
    if n > 0 {
      assert !(sites[n - 1].offset <= p < sites[n - 1].End());
      assert !Covered(sites, n - 1, p);
      FullOutside(buf, sites, addr, n - 1, p);
    }
  }

  /** What full relocation of disjoint sites means: each site holds the word for the address of its
      target, and every byte outside the sites is untouched. */
  lemma FullMeaning(buf: seq<Byte>, sites: seq<Site>, addr: seq<nat>)
    requires InBounds(buf, sites, addr) && Apart(sites)
    ensures forall i :: 0 <= i < |sites| ==> Holds(Full(buf, sites, addr, |sites|), sites[i], addr[sites[i].target])
    ensures forall p :: 0 <= p < |buf| && !Covered(sites, |sites|, p) ==> Full(buf, sites, addr, |sites|)[p] == buf[p]
  {
    forall i | 0 <= i < |sites| ensures Holds(Full(buf, sites, addr, |sites|), sites[i], addr[sites[i].target]) {
      FullHolds(buf, sites, addr, |sites|, i);
    }
    forall p | 0 <= p < |buf| && !Covered(sites, |sites|, p) ensures Full(buf, sites, addr, |sites|)[p] == buf[p] {
      FullOutside(buf, sites, addr, |sites|, p);
    }
  }

  lemma RewriteIsIdle(now: seq<Byte>, buf: seq<Byte>, s: Site, addr: nat)
    requires s.End() <= |buf| == |now| && now[s.offset..s.End()] == buf[s.offset..s.End()] && Holds(buf, s, addr)
    ensures Overwrite(now, s.offset, s.form.Image(addr)) == now
  {
    OverwriteSame(now, s.offset, s.form.Image(addr));
  }

  /** Every site that is skipped already holds the word it would be given. */
  ghost predicate SkippedHold(buf: seq<Byte>, sites: seq<Site>, presumed: seq<nat>, addr: seq<nat>)
    requires |presumed| == |sites| && InBounds(buf, sites, addr)
  {
    forall i :: 0 <= i < |sites| && presumed[i] == addr[sites[i].target] ==> Holds(buf, sites[i], presumed[i])
  }

  lemma {:induction false} SkippingFollows(buf: seq<Byte>, sites: seq<Site>, presumed: seq<nat>, addr: seq<nat>, n: nat)
    requires n <= |sites| == |presumed| && InBounds(buf, sites, addr) && Apart(sites) && SkippedHold(buf, sites, presumed, addr)
    ensures Skipping(buf, sites, presumed, addr, n) == Full(buf, sites, addr, n)
  {
    if n > 0 {
      SkippingFollows(buf, sites, presumed, addr, n - 1);
      if presumed[n - 1] == addr[sites[n - 1].target] { FullIdle(buf, sites, presumed, addr, n); }
    }
  }

  /** Patching a site that holds its word leaves everything as it is. */
  lemma FullIdle(buf: seq<Byte>, sites: seq<Site>, presumed: seq<nat>, addr: seq<nat>, n: nat)
    requires 0 < n <= |sites| == |presumed| && InBounds(buf, sites, addr) && Apart(sites) && SkippedHold(buf, sites, presumed, addr)
    requires presumed[n - 1] == addr[sites[n - 1].target]
    ensures Full(buf, sites, addr, n) == Full(buf, sites, addr, n - 1)
  {
    FullKeeps(buf, sites, addr, n - 1, n - 1);
    RewriteIsIdle(Full(buf, sites, addr, n - 1), buf, sites[n - 1], presumed[n - 1]);
  }

  /** A skipped site keeps the bytes it had. */
  lemma {:induction false} SkippedKeeps(buf: seq<Byte>, sites: seq<Site>, presumed: seq<nat>, addr: seq<nat>, n: nat, i: nat)
    requires n <= |sites| == |presumed| && InBounds(buf, sites, addr) && Apart(sites)
    requires i < |sites| && presumed[i] == addr[sites[i].target]
    ensures Skipping(buf, sites, presumed, addr, n)[sites[i].offset..sites[i].End()] == buf[sites[i].offset..sites[i].End()]
  {
    if n > 0 {
      SkippedKeeps(buf, sites, presumed, addr, n - 1, i);
      var s := sites[n - 1];
      if presumed[n - 1] != addr[s.target] {
        OverwriteElsewhere(Skipping(buf, sites, presumed, addr, n - 1), s.offset, s.form.Image(addr[s.target]), sites[i].offset, sites[i].End());
      }
    }
  }

  /** Whatever the buffer holds: skipping leaves the bytes of full relocation exactly when the sites
      that the skip leaves alone hold the words for their presumed addresses. */
  lemma SkippingExact(buf: seq<Byte>, sites: seq<Site>, presumed: seq<nat>, addr: seq<nat>)
    requires |presumed| == |sites| && InBounds(buf, sites, addr) && Apart(sites)
    ensures Skipping(buf, sites, presumed, addr, |sites|) == Full(buf, sites, addr, |sites|) <==> SkippedHold(buf, sites, presumed, addr)
  {
    if SkippedHold(buf, sites, presumed, addr) {
      SkippingFollows(buf, sites, presumed, addr, |sites|);
    } else {
      var i :| 0 <= i < |sites| && presumed[i] == addr[sites[i].target] && !Holds(buf, sites[i], presumed[i]);
      SkippedKeeps(buf, sites, presumed, addr, |sites|, i);
      FullHolds(buf, sites, addr, |sites|, i);
    }
  }

  /** Skipping the sites that are up to date leaves the same bytes as patching every site. */
  lemma SkippingIsFull(buf: seq<Byte>, sites: seq<Site>, presumed: seq<nat>, addr: seq<nat>)
    requires InBounds(buf, sites, addr) && Ready(buf, sites, presumed)
    ensures Skipping(buf, sites, presumed, addr, |sites|) == Full(buf, sites, addr, |sites|)
  {
    SkippingFollows(buf, sites, presumed, addr, |sites|);
  }

  /** Relocating for two lists of sites, one after the other. */
  lemma {:induction false} SkippingTwoLists(buf: seq<Byte>, a: seq<Site>, b: seq<Site>, pa: seq<nat>, pb: seq<nat>, addr: seq<nat>, n: nat)
    requires |pa| == |a| && |pb| == |b| && InBounds(buf, a, addr) && InBounds(buf, b, addr) && n <= |b|
    ensures InBounds(buf, a + b, addr)
    ensures Skipping(buf, a + b, pa + pb, addr, |a| + n) == Skipping(Skipping(buf, a, pa, addr, |a|), b, pb, addr, n)
  {
    if n > 0 {
      SkippingTwoLists(buf, a, b, pa, pb, addr, n - 1);
    } else {
      SkippingPrefix(buf, a, b, pa, pb, addr, |a|);
    }
  }

  lemma {:induction false} SkippingPrefix(buf: seq<Byte>, a: seq<Site>, b: seq<Site>, pa: seq<nat>, pb: seq<nat>, addr: seq<nat>, n: nat)
    requires |pa| == |a| && |pb| == |b| && InBounds(buf, a, addr) && InBounds(buf, a + b, addr) && n <= |a|
    ensures Skipping(buf, a + b, pa + pb, addr, n) == Skipping(buf, a, pa, addr, n)
  {
    if n > 0 { SkippingPrefix(buf, a, b, pa, pb, addr, n - 1); }
  }

  lemma ReadyAgain(buf: seq<Byte>, sites: seq<Site>, presumed: seq<nat>, addr: seq<nat>)
    requires InBounds(buf, sites, addr) && Ready(buf, sites, presumed)
    ensures Ready(Full(buf, sites, addr, |sites|), sites, Current(sites, addr))
  {
    FullMeaning(buf, sites, addr);
  }

  /** Every site would be written the bytes it already has. */
  ghost predicate UpToDate(sites: seq<Site>, presumed: seq<nat>, addr: seq<nat>)
    requires |presumed| == |sites| && forall i :: 0 <= i < |sites| ==> sites[i].target < |addr|
  {
    forall i :: 0 <= i < |sites| ==> sites[i].form.Image(presumed[i]) == sites[i].form.Image(addr[sites[i].target])
  }

  lemma {:induction false} NothingToDo(buf: seq<Byte>, sites: seq<Site>, presumed: seq<nat>, addr: seq<nat>, n: nat)
    requires n <= |sites| && InBounds(buf, sites, addr) && Ready(buf, sites, presumed) && UpToDate(sites, presumed, addr)
    ensures Full(buf, sites, addr, n) == buf
  {
    if n > 0 {
      NothingToDo(buf, sites, presumed, addr, n - 1);
      RewriteIsIdle(buf, buf, sites[n - 1], presumed[n - 1]);
    }
  }

  /** Leaving a ready buffer alone equals full relocation exactly when it is up to date. */
  lemma LeavingAloneExact(buf: seq<Byte>, sites: seq<Site>, presumed: seq<nat>, addr: seq<nat>)
    requires InBounds(buf, sites, addr) && Ready(buf, sites, presumed)
    ensures Full(buf, sites, addr, |sites|) == buf <==> UpToDate(sites, presumed, addr)
  {
    if UpToDate(sites, presumed, addr) {
      NothingToDo(buf, sites, presumed, addr, |sites|);
    }
    if Full(buf, sites, addr, |sites|) == buf {
      FullMeaning(buf, sites, addr);
      forall i | 0 <= i < |sites| ensures sites[i].form.Image(presumed[i]) == sites[i].form.Image(addr[sites[i].target]) {
        assert Holds(buf, sites[i], presumed[i]);
      }
    }
  }

  /** Two addresses give the same word exactly when they agree modulo its width. */
  lemma SumImages(f: Form, a: nat, b: nat)
    requires f.Sum?
    ensures f.Image(a) == f.Image(b) <==> a % Pow256(f.bytes) == b % Pow256(f.bytes)
  {
    var x, y, n := a + f.delta, b + f.delta, f.bytes;
    assert f.Image(a) == LittleEndian(x, n) && f.Image(b) == LittleEndian(y, n);
    assert LittleEndian(x, n) == LittleEndian(y, n) <==> x % Pow256(n) == y % Pow256(n) by { SameBytes(x, y, n); }
    SameAfterSum(a, b, f.delta, Pow256(n));
  }

  lemma SameAfterSum(a: nat, b: nat, d: nat, m: nat)
    requires m > 0
    ensures (a + d) % m == (b + d) % m <==> a % m == b % m
  {
    SumModulo(a, d, m);
    SumModulo(b, d, m);
  }

  /** The remainder of a sum, from the remainders. */
  lemma SumModulo(a: nat, d: nat, m: nat)
    requires m > 0
    ensures var r := a % m + d % m; (a + d) % m == if r < m then r else r - m
  {
    SumOfQuotients(a, d, m, a / m, d / m, a % m, d % m);
  }

  lemma SumOfQuotients(a: nat, d: nat, m: nat, p: nat, q: nat, x: nat, y: nat)
    requires a == p * m + x && d == q * m + y && x < m && y < m
    ensures (a + d) % m == if x + y < m then x + y else x + y - m
  {
    assert (p + q) * m == p * m + q * m && (p + q + 1) * m == p * m + q * m + m;
    if x + y < m { QuotientIs(a + d, m, p + q, x + y); } else { QuotientIs(a + d, m, p + q + 1, x + y - m); }
  }

  /** What a word `addr + delta` reads as. */
  lemma SumWord(f: Form, addr: nat)
    requires f.Sum?
    ensures |f.Image(addr)| == f.bytes && FromLittleEndian(f.Image(addr)) == (addr + f.delta) % Pow256(f.bytes)
  {
    ReadsModulo(addr + f.delta, f.bytes);
  }

  /** What a word `((addr + offset) << shift) | or` of 32 bits reads as, bit by bit; a negative shift
      goes to the right. */
  lemma ShiftedWord(f: Form, addr: nat, i: nat)
    requires f.Shifted?
    ensures |f.Image(addr)| == 4
    ensures Bit(FromLittleEndian(f.Image(addr)), i) <==>
            i < 32 && ((i - f.shift >= 0 && Bit(addr + f.offset, i - f.shift)) || Bit(f.bits, i))
  {
    var v := f.Word(addr);
    ReadsModulo(v, 4);
    WordBit(f, addr, i);
    CutToWord(v, i, 32);
  }

  lemma WordBit(f: Form, addr: nat, i: nat)
    requires f.Shifted?
    ensures Bit(f.Word(addr), i) <==> (i - f.shift >= 0 && Bit(addr + f.offset, i - f.shift)) || Bit(f.bits, i)
  {
    var a := addr + f.offset;
    if f.shift >= 0 {
      OrBit(Shl(a, f.shift), f.bits, i);
      ShlBit(a, f.shift, i);
    } else {
      OrBit(Shr(a, -f.shift), f.bits, i);
      ShrBit(a, -f.shift, i);
    }
  }

  lemma CutToWord(v: nat, i: nat, n: nat)
    requires n == 32
    ensures Bit(v % Pow256(4), i) <==> i < n && Bit(v, i)
  {
    assert Pow256(4) == Pow2(n) by { Widths(); Powers(); }
    MaskIsModulo(v, n);
    AndBit(v, Mask(n), i);
    MaskBit(n, i);
  }

  /** The number at a site. */
  function ReadWord(buf: seq<Byte>, s: Site): nat
    requires s.End() <= |buf|
  {
    FromLittleEndian(buf[s.offset..s.End()])
  }

  /** Bit i of the word that a site has to hold for an address of its target. */
  ghost predicate RelocatedBit(f: Form, addr: nat, i: nat) {
    match f
    case Sum(delta, bytes) => Bit((addr + delta) % Pow256(bytes), i)
    case Shifted(offset, shift, bits) => i < 32 && ((i - shift >= 0 && Bit(addr + offset, i - shift)) || Bit(bits, i))
  }

  /** A site that holds its word reads as that word. */
  lemma HeldWord(buf: seq<Byte>, s: Site, addr: nat)
    requires s.End() <= |buf| && Holds(buf, s, addr)
    ensures s.End() == s.offset + if s.form.Sum? then s.form.bytes else 4
    ensures s.form.Sum? ==> ReadWord(buf, s) == (addr + s.form.delta) % Pow256(s.form.bytes)
    ensures forall i: nat :: Bit(ReadWord(buf, s), i) <==> RelocatedBit(s.form, addr, i)
  {
    if s.form.Sum? {
      SumWord(s.form, addr);
    } else {
      forall i: nat ensures Bit(ReadWord(buf, s), i) <==> RelocatedBit(s.form, addr, i) { ShiftedWord(s.form, addr, i); }
    }
  }

  lemma SmallModulo(a: nat, m: nat)
    requires a < m
    ensures a % m == a
  {
  }

  /** The loop over one buffer's relocations, patching and writing presumed addresses in place. */
  method Relocate(buf: array<Byte>, sites: seq<Site>, presumed: array<nat>, addr: seq<nat>)
    requires presumed.Length == |sites| && InBounds(buf[..], sites, addr)
    modifies buf, presumed
    ensures buf[..] == Skipping(old(buf[..]), sites, old(presumed[..]), addr, |sites|)
    ensures presumed[..] == Current(sites, addr)
  {
    ghost var before, guessed := buf[..], presumed[..];
    for n := 0 to |sites|
      invariant buf[..] == Skipping(before, sites, guessed, addr, n)
      invariant forall i :: 0 <= i < n ==> presumed[i] == addr[sites[i].target]
      invariant forall i :: n <= i < |sites| ==> presumed[i] == guessed[i]
    {
      var s := sites[n];
      if presumed[n] != addr[s.target] {
        WriteBytes(buf, s.offset, s.form.Image(addr[s.target]));
        presumed[n] := addr[s.target];
      }
    }
  }

  /** The same on values. */
  method RelocateCopy(before: seq<Byte>, sites: seq<Site>, guessed: seq<nat>, addr: seq<nat>) returns (after: seq<Byte>, current: seq<nat>)
    requires |guessed| == |sites| && InBounds(before, sites, addr)
    ensures after == Skipping(before, sites, guessed, addr, |sites|) && current == Current(sites, addr)
  {
    var buf := new Byte[|before|](i requires 0 <= i < |before| => before[i]);
    var presumed := new nat[|guessed|](i requires 0 <= i < |guessed| => guessed[i]);
    assert buf[..] == before && presumed[..] == guessed;
    Relocate(buf, sites, presumed, addr);
    after, current := buf[..], presumed[..];
  }

  method WriteBytes(buf: array<Byte>, at: nat, b: seq<Byte>)
    requires at + |b| <= buf.Length
    modifies buf
    ensures buf[..] == Overwrite(old(buf[..]), at, b)
  {
    for i := 0 to |b|
      invariant forall p :: 0 <= p < buf.Length ==> buf[p] == if at <= p < at + i then b[p - at] else old(buf[p])
    {
      buf[at + i] := b[i];
    }
    assert buf[..] == Overwrite(old(buf[..]), at, b);
  }
}
