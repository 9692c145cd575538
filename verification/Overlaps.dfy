/** Relocation sites that overlap. With one presumed address for each target, skipping is compared
    with full relocation byte by byte: what a byte holds in the end is decided by the last site that
    writes it. */
module Overlaps {
  import opened Bits
  import opened Bytes
  import opened Relocation

  predicate Covers(s: Site, p: nat) {
    s.offset <= p < s.End()
  }

  /** The byte that a site puts at p for an address of its target. */
  function ByteAt(s: Site, addr: nat, p: nat): Byte
    requires Covers(s, p)
  {
    s.form.Image(addr)[p - s.offset]
  }

  predicate Stale(s: Site, presumed: seq<nat>, table: seq<nat>) {
    s.target < |presumed| == |table| && presumed[s.target] != table[s.target]
  }

  /** The last of the first n sites that covers p, or -1. */
  function Last(sites: seq<Site>, n: nat, p: nat): (k: int)
    requires n <= |sites|
    ensures -1 <= k < n
    ensures k >= 0 ==> Covers(sites[k], p)
    ensures forall j :: k < j < n ==> !Covers(sites[j], p)
  {
    if n == 0 then -1 else if Covers(sites[n - 1], p) then n - 1 else Last(sites, n - 1, p)
  }

  /** The last of them whose target has moved. */
  function LastStale(sites: seq<Site>, presumed: seq<nat>, table: seq<nat>, n: nat, p: nat): (k: int)
    requires n <= |sites|
    ensures -1 <= k < n
    ensures k >= 0 ==> Covers(sites[k], p) && Stale(sites[k], presumed, table)
    ensures forall j :: k < j < n ==> !Covers(sites[j], p) || !Stale(sites[j], presumed, table)
  {
    if n == 0 then -1
    else if Covers(sites[n - 1], p) && Stale(sites[n - 1], presumed, table) then n - 1
    else LastStale(sites, presumed, table, n - 1, p)
  }

  lemma OverwrittenByte(buf: seq<Byte>, at: nat, b: seq<Byte>, p: nat)
    requires at + |b| <= |buf| && p < |buf|
    ensures Overwrite(buf, at, b)[p] == if at <= p < at + |b| then b[p - at] else buf[p]
  {
  }

  /** Full relocation leaves at each byte what the last site that covers it puts there. */
  lemma {:induction false} FullByte(buf: seq<Byte>, sites: seq<Site>, table: seq<nat>, n: nat, p: nat)
    requires n <= |sites| && InBounds(buf, sites, table) && p < |buf|
    ensures var k := Last(sites, n, p);
            Full(buf, sites, table, n)[p] == if k < 0 then buf[p] else ByteAt(sites[k], table[sites[k].target], p)
  {
    if n > 0 {
      var s := sites[n - 1];
      FullByte(buf, sites, table, n - 1, p);
      OverwrittenByte(Full(buf, sites, table, n - 1), s.offset, s.form.Image(table[s.target]), p);
    }
  }

  /** Skipping leaves what the last site with a moved target puts there. */
  lemma {:induction false} SkippingByte(buf: seq<Byte>, sites: seq<Site>, presumed: seq<nat>, table: seq<nat>, n: nat, p: nat)
    requires n <= |sites| && |presumed| == |table| && InBounds(buf, sites, table) && p < |buf|
    ensures var k := LastStale(sites, presumed, table, n, p);
            Skipping(buf, sites, Current(sites, presumed), table, n)[p] ==
            if k < 0 then buf[p] else ByteAt(sites[k], table[sites[k].target], p)
  {
    if n > 0 {
      var s := sites[n - 1];
      var before := Skipping(buf, sites, Current(sites, presumed), table, n - 1);
      SkippingByte(buf, sites, presumed, table, n - 1, p);
      OverwrittenByte(before, s.offset, s.form.Image(table[s.target]), p);
    }
  }

  // ----- the exact condition

  /** Site m is the last of its own target to cover p, and a site of another target covers p later. */
  ghost predicate Exposed(sites: seq<Site>, m: nat, p: nat)
    requires m < |sites|
  {
    && Covers(sites[m], p) && Last(sites, |sites|, p) != m
    && forall j :: m < j < |sites| && sites[j].target == sites[m].target ==> !Covers(sites[j], p)
  }

  /** Each byte is the one that the last site to cover it has for the presumed address. */
  ghost predicate Shows(buf: seq<Byte>, sites: seq<Site>, presumed: seq<nat>)
    requires InBounds(buf, sites, presumed)
  {
    forall p: nat :: p < |buf| && Last(sites, |sites|, p) >= 0 ==> ShowsAt(buf, sites, presumed, p)
  }

  ghost predicate ShowsAt(buf: seq<Byte>, sites: seq<Site>, presumed: seq<nat>, p: nat)
    requires InBounds(buf, sites, presumed) && p < |buf| && Last(sites, |sites|, p) >= 0
  {
    var s := sites[Last(sites, |sites|, p)];
    buf[p] == ByteAt(s, presumed[s.target], p)
  }

  /** An exposed byte is written the same whatever other address the target has. */
  ghost predicate Harmless(buf: seq<Byte>, sites: seq<Site>, presumed: seq<nat>)
    requires InBounds(buf, sites, presumed)
  {
    forall m: nat, p: nat, a: nat :: m < |sites| && p < |buf| && Exposed(sites, m, p) && a != presumed[sites[m].target] ==>
      ByteAt(sites[m], a, p) == buf[p]
  }

  ghost predicate Sound(buf: seq<Byte>, sites: seq<Site>, presumed: seq<nat>)
    requires InBounds(buf, sites, presumed)
  {
    Shows(buf, sites, presumed) && Harmless(buf, sites, presumed)
  }

  /** Both ways of relocating a buffer leave the same bytes. */
  ghost predicate Agree(buf: seq<Byte>, sites: seq<Site>, presumed: seq<nat>, table: seq<nat>)
    requires |presumed| == |table| && InBounds(buf, sites, table)
  {
    Skipping(buf, sites, Current(sites, presumed), table, |sites|) == Full(buf, sites, table, |sites|)
  }

  lemma SoundAtByte(buf: seq<Byte>, sites: seq<Site>, presumed: seq<nat>, table: seq<nat>, p: nat)
    requires |presumed| == |table| && InBounds(buf, sites, table) && Sound(buf, sites, presumed) && p < |buf|
    ensures Skipping(buf, sites, Current(sites, presumed), table, |sites|)[p] == Full(buf, sites, table, |sites|)[p]
  {
    FullByte(buf, sites, table, |sites|, p);
    SkippingByte(buf, sites, presumed, table, |sites|, p);
    var l, k := Last(sites, |sites|, p), LastStale(sites, presumed, table, |sites|, p);
    if l >= 0 && !Stale(sites[l], presumed, table) {
      assert ShowsAt(buf, sites, presumed, p);
      if k >= 0 { assert Exposed(sites, k, p); }
    }
  }

  lemma SoundAgrees(buf: seq<Byte>, sites: seq<Site>, presumed: seq<nat>, table: seq<nat>)
    requires |presumed| == |table| && InBounds(buf, sites, table) && Sound(buf, sites, presumed)
    ensures Agree(buf, sites, presumed, table)
  {
    forall p: nat | p < |buf|
      ensures Skipping(buf, sites, Current(sites, presumed), table, |sites|)[p] == Full(buf, sites, table, |sites|)[p]
    {
      SoundAtByte(buf, sites, presumed, table, p);
    }
  }

  lemma {:induction false} NothingSkipped(buf: seq<Byte>, sites: seq<Site>, presumed: seq<nat>, n: nat)
    requires InBounds(buf, sites, presumed) && n <= |sites|
    ensures Skipping(buf, sites, Current(sites, presumed), presumed, n) == buf
  {
    if n > 0 { NothingSkipped(buf, sites, presumed, n - 1); }
  }

  /** With every target where it is presumed, skipping changes nothing, and that is right exactly when
      the buffer shows its words. */
  lemma PresumedAgrees(buf: seq<Byte>, sites: seq<Site>, presumed: seq<nat>)
    requires InBounds(buf, sites, presumed)
    ensures Skipping(buf, sites, Current(sites, presumed), presumed, |sites|) == buf
    ensures Full(buf, sites, presumed, |sites|) == buf <==> Shows(buf, sites, presumed)
  {
    NothingSkipped(buf, sites, presumed, |sites|);
    forall p: nat | p < |buf|
      ensures Full(buf, sites, presumed, |sites|)[p] == buf[p] <==> (Last(sites, |sites|, p) >= 0 ==> ShowsAt(buf, sites, presumed, p))
    {
      FullByte(buf, sites, presumed, |sites|, p);
    }
    if Shows(buf, sites, presumed) { assert Full(buf, sites, presumed, |sites|) == buf; }
  }

  /** Moving one target shows every byte that it is exposed at. */
  lemma OneMoved(buf: seq<Byte>, sites: seq<Site>, presumed: seq<nat>, m: nat, p: nat, a: nat)
    requires InBounds(buf, sites, presumed) && Shows(buf, sites, presumed)
    requires m < |sites| && p < |buf| && Exposed(sites, m, p) && a != presumed[sites[m].target]
    requires Agree(buf, sites, presumed, presumed[sites[m].target := a])
    ensures ByteAt(sites[m], a, p) == buf[p]
  {
    var table := presumed[sites[m].target := a];
    FullByte(buf, sites, table, |sites|, p);
    SkippingByte(buf, sites, presumed, table, |sites|, p);
    assert ShowsAt(buf, sites, presumed, p);
    assert Stale(sites[m], presumed, table);
    assert LastStale(sites, presumed, table, |sites|, p) == m;
  }

  /** For any sites and any contents: skipping is right wherever the targets are, exactly when the
      buffer shows the words for the presumed addresses and no exposed byte tells addresses apart. */
  lemma SoundExact(buf: seq<Byte>, sites: seq<Site>, presumed: seq<nat>)
    requires InBounds(buf, sites, presumed)
    ensures (forall table: seq<nat> :: |table| == |presumed| ==> Agree(buf, sites, presumed, table)) <==> Sound(buf, sites, presumed)
  {
    if Sound(buf, sites, presumed) {
      forall table: seq<nat> | |table| == |presumed| ensures Agree(buf, sites, presumed, table) {
        SoundAgrees(buf, sites, presumed, table);
      }
    }
    if forall table: seq<nat> :: |table| == |presumed| ==> Agree(buf, sites, presumed, table) {
      assert Agree(buf, sites, presumed, presumed);
      PresumedAgrees(buf, sites, presumed);
      forall m: nat, p: nat, a: nat | m < |sites| && p < |buf| && Exposed(sites, m, p) && a != presumed[sites[m].target]
        ensures ByteAt(sites[m], a, p) == buf[p]
      {
        assert Agree(buf, sites, presumed, presumed[sites[m].target := a]);
        OneMoved(buf, sites, presumed, m, p, a);
      }
    }
  }

  // ----- two cases

  ghost predicate HoldsAll(buf: seq<Byte>, sites: seq<Site>, presumed: seq<nat>)
    requires InBounds(buf, sites, presumed)
  {
    forall i :: 0 <= i < |sites| ==> Holds(buf, sites[i], presumed[sites[i].target])
  }

  lemma HeldByte(buf: seq<Byte>, s: Site, addr: nat, p: nat)
    requires s.End() <= |buf| && Holds(buf, s, addr) && Covers(s, p)
    ensures buf[p] == ByteAt(s, addr, p)
  {
    assert buf[s.offset..s.End()][p - s.offset] == buf[p];
  }

  lemma HoldsShows(buf: seq<Byte>, sites: seq<Site>, presumed: seq<nat>)
    requires InBounds(buf, sites, presumed) && HoldsAll(buf, sites, presumed)
    ensures Shows(buf, sites, presumed)
  {
    forall p: nat | p < |buf| && Last(sites, |sites|, p) >= 0 ensures ShowsAt(buf, sites, presumed, p) {
      var s := sites[Last(sites, |sites|, p)];
      HeldByte(buf, s, presumed[s.target], p);
    }
  }

  /** Without overlaps it is a matter of the words alone. */
  lemma ApartSound(buf: seq<Byte>, sites: seq<Site>, presumed: seq<nat>)
    requires InBounds(buf, sites, presumed) && Apart(sites)
    ensures Shows(buf, sites, presumed) <==> HoldsAll(buf, sites, presumed)
    ensures Sound(buf, sites, presumed) <==> HoldsAll(buf, sites, presumed)
  {
    if HoldsAll(buf, sites, presumed) {
      HoldsShows(buf, sites, presumed);
    }
    if Shows(buf, sites, presumed) {
      forall i | 0 <= i < |sites| ensures Holds(buf, sites[i], presumed[sites[i].target]) {
        ShownWord(buf, sites, presumed, i);
      }
    }
    forall m: nat, p: nat | m < |sites| && p < |buf| ensures !Exposed(sites, m, p) {
      if Covers(sites[m], p) { ApartLast(sites, m, p); }
    }
  }

  lemma ApartLast(sites: seq<Site>, i: nat, p: nat)
    requires Apart(sites) && i < |sites| && Covers(sites[i], p)
    ensures Last(sites, |sites|, p) == i
  {
    var l := Last(sites, |sites|, p);
  }

  lemma ShownByte(buf: seq<Byte>, sites: seq<Site>, presumed: seq<nat>, i: nat, p: nat)
    requires InBounds(buf, sites, presumed) && Shows(buf, sites, presumed) && Apart(sites) && i < |sites| && Covers(sites[i], p)
    ensures p < |buf| && buf[p] == ByteAt(sites[i], presumed[sites[i].target], p)
  {
    ApartLast(sites, i, p);
    assert ShowsAt(buf, sites, presumed, p);
  }

  lemma ShownWord(buf: seq<Byte>, sites: seq<Site>, presumed: seq<nat>, i: nat)
    requires InBounds(buf, sites, presumed) && Shows(buf, sites, presumed) && Apart(sites) && i < |sites|
    ensures Holds(buf, sites[i], presumed[sites[i].target])
  {
    var s, image := sites[i], sites[i].form.Image(presumed[sites[i].target]);
    forall p: nat | s.offset <= p < s.End() ensures buf[p] == image[p - s.offset] {
      ShownByte(buf, sites, presumed, i, p);
    }
    SliceIs(buf, s.offset, image);
  }

  lemma SliceIs(buf: seq<Byte>, at: nat, b: seq<Byte>)
    requires at + |b| <= |buf| && forall p: nat :: at <= p < at + |b| ==> buf[p] == b[p - at]
    ensures buf[at..at + |b|] == b
  {
  }

  /** Sites that share a byte have the same target. */
  ghost predicate OneTarget(sites: seq<Site>) {
    forall i, j, p: nat :: 0 <= i < j < |sites| && Covers(sites[i], p) && Covers(sites[j], p) ==> sites[i].target == sites[j].target
  }

  ghost predicate Sums(sites: seq<Site>) {
    forall i :: 0 <= i < |sites| ==> sites[i].form.Sum?
  }

  /** Every byte of a sum can be changed by moving the target. */
  lemma SumByteMoves(s: Site, presumed: nat, p: nat, b: Byte) returns (a: nat)
    requires s.form.Sum? && Covers(s, p)
    ensures a != presumed && ByteAt(s, a, p) != b
  {
    var k, n, d := p - s.offset, s.form.bytes, s.form.delta;
    var one, two := presumed + Pow256(k), presumed + 2 * Pow256(k);
    Digit(one + d, n, k);
    Digit(two + d, n, k);
    NextDigit(one + d, Pow256(k));
    a := if ByteAt(s, one, p) != b then one else two;
  }

  lemma NextDigit(v: nat, m: nat)
    requires m > 0
    ensures (v + m) / m % 256 != v / m % 256
  {
    assert (v / m + 1) * m == v / m * m + m;
    QuotientIs(v + m, m, v / m + 1, v % m);
  }

  /** An exposed site makes two targets share a byte, and the other way round. */
  lemma ExposedIsShared(sites: seq<Site>)
    ensures OneTarget(sites) <==> forall m: nat, p: nat :: m < |sites| ==> !Exposed(sites, m, p)
  {
    if OneTarget(sites) {
      forall m: nat, p: nat | m < |sites| ensures !Exposed(sites, m, p) {
        var l := Last(sites, |sites|, p);
      }
    }
    if forall m: nat, p: nat :: m < |sites| ==> !Exposed(sites, m, p) {
      forall i, j, p: nat | 0 <= i < j < |sites| && Covers(sites[i], p) && Covers(sites[j], p)
        ensures sites[i].target == sites[j].target
      {
        SharesWithLast(sites, i, p);
        SharesWithLast(sites, j, p);
      }
    }
  }

  lemma {:induction false} SharesWithLast(sites: seq<Site>, i: nat, p: nat)
    requires i < |sites| && Covers(sites[i], p) && forall m: nat, q: nat :: m < |sites| ==> !Exposed(sites, m, q)
    ensures sites[i].target == sites[Last(sites, |sites|, p)].target
    decreases |sites| - i
  {
    if Last(sites, |sites|, p) != i {
      assert !Exposed(sites, i, p);
      var j :| i < j < |sites| && sites[j].target == sites[i].target && Covers(sites[j], p);
      SharesWithLast(sites, j, p);
    }
  }

  /** Sums may overlap exactly where they have the same target. */
  lemma SumsSound(buf: seq<Byte>, sites: seq<Site>, presumed: seq<nat>)
    requires InBounds(buf, sites, presumed) && Sums(sites)
    ensures Sound(buf, sites, presumed) <==> Shows(buf, sites, presumed) && OneTarget(sites)
  {
    ExposedIsShared(sites);
    if Sound(buf, sites, presumed) {
      forall m: nat, p: nat | m < |sites| ensures !Exposed(sites, m, p) {
        if Exposed(sites, m, p) {
          var a := SumByteMoves(sites[m], presumed[sites[m].target], p, buf[p]);
          assert false;
        }
      }
    }
  }
}
