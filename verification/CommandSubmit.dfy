/** msm and etnaviv submits. Each submit has its own table of buffers with one presumed address for
    each, and its own command streams, whose relocations refer to the table, sorted by increasing
    offset or EINVAL. In etnaviv's softpin submits `presumed` is the address itself. Skipping is
    compared with full relocation over whole runs. */
module CommandSubmit {
  import opened Bits
  import opened Bytes
  import opened Relocation
  import opened Overlaps

  /** An entry of `bos[]`. */
  datatype Bo = Bo(handle: nat, presumed: nat)

  /** An entry of `cmds[]`: its buffer (`submit_idx`) and the targets of its relocations
      (`reloc_idx`) are places in the table. */
  datatype Cmd = Cmd(buffer: nat, relocs: seq<Site>)

  datatype Request = Request(bos: seq<Bo>, cmds: seq<Cmd>)

  /** Current address and contents of every buffer, by handle. */
  datatype Gpu = Gpu(addr: seq<nat>, bufs: seq<seq<Byte>>)

  datatype Step =
    | Move(handle: nat, to: nat)
    | Emit(handle: nat, contents: seq<Byte>)
    | Submit(request: Request)
    | Softpin(request: Request, placeable: bool)  // whether the kernel can map all at the presumed addresses

  datatype Outcome = Done | Einval | Unmappable

  /** The state after a step, and what a submit returns: its outcome and its table. */
  datatype Result = Result(gpu: Gpu, outcome: Outcome, bos: seq<Bo>)

  // ----- requests

  predicate Fits(s: Site, size: nat, table: nat) {
    s.End() <= size && s.target < table
  }

  predicate CmdFits(bufs: seq<seq<Byte>>, bos: seq<Bo>, c: Cmd) {
    && c.buffer < |bos| && bos[c.buffer].handle < |bufs|
    && forall i :: 0 <= i < |c.relocs| ==> Fits(c.relocs[i], |bufs[bos[c.buffer].handle]|, |bos|)
  }

  /** Each buffer has one entry, and everything refers to existing entries. */
  ghost predicate Shaped(bufs: seq<seq<Byte>>, r: Request) {
    && (forall k :: 0 <= k < |r.bos| ==> r.bos[k].handle < |bufs|)
    && (forall j, k :: 0 <= j < k < |r.bos| ==> r.bos[j].handle != r.bos[k].handle)
    && (forall c :: c in r.cmds ==> CmdFits(bufs, r.bos, c))
  }

  predicate Sorted(sites: seq<Site>) {
    forall i :: 0 < i < |sites| ==> sites[i - 1].offset < sites[i].offset
  }

  predicate AllSorted(cmds: seq<Cmd>) {
    forall c :: c in cmds ==> Sorted(c.relocs)
  }

  function Presumed(bos: seq<Bo>): (r: seq<nat>)
    ensures |r| == |bos| && forall k :: 0 <= k < |bos| ==> r[k] == bos[k].presumed
  {
    seq(|bos|, k requires 0 <= k < |bos| => bos[k].presumed)
  }

  /** The current addresses of the buffers in the table. */
  function Table(addr: seq<nat>, bos: seq<Bo>): (r: seq<nat>)
    requires forall k :: 0 <= k < |bos| ==> bos[k].handle < |addr|
    ensures |r| == |bos| && forall k :: 0 <= k < |bos| ==> r[k] == addr[bos[k].handle]
  {
    seq(|bos|, k requires 0 <= k < |bos| => addr[bos[k].handle])
  }

  /** The table with the given addresses as the presumed ones. */
  function Updated(bos: seq<Bo>, table: seq<nat>): (r: seq<Bo>)
    requires |table| == |bos|
    ensures |r| == |bos|
  {
    seq(|bos|, k requires 0 <= k < |bos| => Bo(bos[k].handle, table[k]))
  }

  /** All relocations that the streams apply to one buffer, in order. */
  function Relocs(bufs: seq<seq<Byte>>, bos: seq<Bo>, cmds: seq<Cmd>, h: nat): (r: seq<Site>)
    requires h < |bufs| && forall c :: c in cmds ==> CmdFits(bufs, bos, c)
    ensures forall i :: 0 <= i < |r| ==> Fits(r[i], |bufs[h]|, |bos|)
  {
    if cmds == [] then []
    else
      var c := cmds[|cmds| - 1];
      assert c in cmds && CmdFits(bufs, bos, c);
      Relocs(bufs, bos, cmds[..|cmds| - 1], h) + (if bos[c.buffer].handle == h then c.relocs else [])
  }

  // ----- steps

  function PatchedBuffer(buf: seq<Byte>, sites: seq<Site>, presumed: seq<nat>, table: seq<nat>, skip: bool): (r: seq<Byte>)
    requires |presumed| == |table| && InBounds(buf, sites, table)
    ensures |r| == |buf|
  {
    if skip then Skipping(buf, sites, Current(sites, presumed), table, |sites|) else Full(buf, sites, table, |sites|)
  }

  function Patched(bufs: seq<seq<Byte>>, r: Request, table: seq<nat>, skip: bool): (after: seq<seq<Byte>>)
    requires Shaped(bufs, r) && |table| == |r.bos|
    ensures |after| == |bufs|
  {
    seq(|bufs|, h requires 0 <= h < |bufs| =>
      PatchedBuffer(bufs[h], Relocs(bufs, r.bos, r.cmds, h), Presumed(r.bos), table, skip))
  }

  /** Addresses by handle, those of the table replaced by the presumed ones. */
  function Noted(addr: seq<nat>, bos: seq<Bo>): (r: seq<nat>)
    requires forall k :: 0 <= k < |bos| ==> bos[k].handle < |addr|
    ensures |r| == |addr|
  {
    if bos == [] then addr
    else
      var b := bos[|bos| - 1];
      Noted(addr, bos[..|bos| - 1])[b.handle := b.presumed]
  }

  ghost predicate Possible(g: Gpu, step: Step) {
    && |g.addr| == |g.bufs|
    && match step
       case Move(h, _) => h < |g.addr|
       case Emit(h, _) => h < |g.bufs|
       case Submit(r) => Shaped(g.bufs, r)
       case Softpin(r, _) => Shaped(g.bufs, r)
  }

  function After(g: Gpu, step: Step, skip: bool): (e: Result)
    requires Possible(g, step)
    ensures |e.gpu.addr| == |e.gpu.bufs| == |g.bufs|
  {
    match step
    case Move(h, a) => Result(g.(addr := g.addr[h := a]), Done, [])
    case Emit(h, contents) => Result(g.(bufs := g.bufs[h := contents]), Done, [])
    case Submit(r) => if AllSorted(r.cmds) then Relocated(g, r, skip) else Result(g, Einval, r.bos)
    case Softpin(r, placeable) =>
      if !AllSorted(r.cmds) then Result(g, Einval, r.bos)
      else if !placeable then Result(g, Unmappable, r.bos)
      else Relocated(g.(addr := Noted(g.addr, r.bos)), r, skip)
  }

  function Relocated(g: Gpu, r: Request, skip: bool): Result
    requires |g.addr| == |g.bufs| && Shaped(g.bufs, r)
  {
    var table := Table(g.addr, r.bos);
    Result(g.(bufs := Patched(g.bufs, r, table, skip)), Done, Updated(r.bos, table))
  }

  // ----- what user space owes

  /** No two relocations of a request overlap. */
  ghost predicate Disjoint(bufs: seq<seq<Byte>>, r: Request)
    requires Shaped(bufs, r)
  {
    forall h :: 0 <= h < |bufs| ==> Apart(Relocs(bufs, r.bos, r.cmds, h))
  }

  /** Every relocated word of the request's streams is the one for the presumed address that the
      request passes. */
  ghost predicate Honest(bufs: seq<seq<Byte>>, r: Request)
    requires Shaped(bufs, r)
  {
    forall h :: 0 <= h < |bufs| ==> HoldsAll(bufs[h], Relocs(bufs, r.bos, r.cmds, h), Presumed(r.bos))
  }

  /** Every byte of the request's relocated words is the one that the last relocation to cover it has
      for the presumed address; the same as being honest when nothing overlaps. */
  ghost predicate ShowsAll(bufs: seq<seq<Byte>>, r: Request)
    requires Shaped(bufs, r)
  {
    forall h :: 0 <= h < |bufs| ==> Shows(bufs[h], Relocs(bufs, r.bos, r.cmds, h), Presumed(r.bos))
  }

  /** Moreover, where relocations overlap, those written over are told by no address. */
  ghost predicate Skippable(bufs: seq<seq<Byte>>, r: Request)
    requires Shaped(bufs, r)
  {
    forall h :: 0 <= h < |bufs| ==> Sound(bufs[h], Relocs(bufs, r.bos, r.cmds, h), Presumed(r.bos))
  }

  ghost predicate Allowed(g: Gpu, step: Step) {
    && Possible(g, step)
    && ((step.Submit? || step.Softpin?) && AllSorted(step.request.cmds) ==> Skippable(g.bufs, step.request))
  }

  // ----- sorted relocations

  lemma {:induction false} SpacedOrder(sites: seq<Site>, gap: nat, i: nat, j: nat)
    requires forall k :: 0 < k < |sites| ==> sites[k - 1].offset + gap <= sites[k].offset
    requires i < j < |sites|
    ensures sites[i].offset + gap <= sites[j].offset
  {
    if i + 1 < j { SpacedOrder(sites, gap, i, j - 1); }
  }

  ghost predicate Spaced(sites: seq<Site>) {
    forall k :: 0 < k < |sites| ==> sites[k - 1].offset + 4 <= sites[k].offset
  }

  ghost predicate Words(sites: seq<Site>) {
    forall i :: 0 <= i < |sites| ==> sites[i].form.Width() == 4
  }

  lemma SpacedApart(sites: seq<Site>)
    requires Words(sites) && Spaced(sites)
    ensures Apart(sites)
  {
    forall i, j | 0 <= i < j < |sites| ensures sites[i].End() <= sites[j].offset { SpacedOrder(sites, 4, i, j); }
  }

  /** Sorted 32-bit words do not overlap exactly when neighbours are at least four bytes apart, as
      aligned words are. */
  lemma SortedApart(sites: seq<Site>)
    requires Sorted(sites) && Words(sites)
    ensures Apart(sites) <==> Spaced(sites)
    ensures (forall i :: 0 <= i < |sites| ==> sites[i].offset % 4 == 0) ==> Spaced(sites)
  {
    if Spaced(sites) { SpacedApart(sites); }
    if Apart(sites) {
      forall k | 0 < k < |sites| ensures sites[k - 1].offset + 4 <= sites[k].offset {
        var before, here := sites[k - 1], sites[k];
        assert before.End() <= here.offset || here.End() <= before.offset;
      }
    }
  }

  // ----- one submit

  lemma PatchedAgree(bufs: seq<seq<Byte>>, r: Request, table: seq<nat>)
    requires Shaped(bufs, r) && |table| == |r.bos| && Skippable(bufs, r)
    ensures Patched(bufs, r, table, true) == Patched(bufs, r, table, false)
  {
    forall h | 0 <= h < |bufs| ensures Patched(bufs, r, table, true)[h] == Patched(bufs, r, table, false)[h] {
      SoundAgrees(bufs[h], Relocs(bufs, r.bos, r.cmds, h), Presumed(r.bos), table);
    }
  }

  /** When every address is the presumed one, skipping leaves all bytes alone, and that is right only
      for requests that show their words. */
  lemma PresumedPlaces(bufs: seq<seq<Byte>>, r: Request)
    requires Shaped(bufs, r)
    ensures Patched(bufs, r, Presumed(r.bos), true) == bufs
    ensures Patched(bufs, r, Presumed(r.bos), false) == bufs <==> ShowsAll(bufs, r)
  {
    var p := Presumed(r.bos);
    forall h | 0 <= h < |bufs|
      ensures Patched(bufs, r, p, true)[h] == bufs[h]
      ensures Patched(bufs, r, p, false)[h] == bufs[h] <==> Shows(bufs[h], Relocs(bufs, r.bos, r.cmds, h), p)
    {
      PresumedAgrees(bufs[h], Relocs(bufs, r.bos, r.cmds, h), p);
    }
  }

  lemma {:induction false} NotedElsewhere(addr: seq<nat>, bos: seq<Bo>, h: nat)
    requires forall k :: 0 <= k < |bos| ==> bos[k].handle < |addr|
    requires h < |addr| && forall k :: 0 <= k < |bos| ==> bos[k].handle != h
    ensures Noted(addr, bos)[h] == addr[h]
  {
    if bos != [] { NotedElsewhere(addr, bos[..|bos| - 1], h); }
  }

  lemma {:induction false} NotedThere(addr: seq<nat>, bos: seq<Bo>, k: nat)
    requires forall j :: 0 <= j < |bos| ==> bos[j].handle < |addr|
    requires forall i, j :: 0 <= i < j < |bos| ==> bos[i].handle != bos[j].handle
    requires k < |bos|
    ensures Noted(addr, bos)[bos[k].handle] == bos[k].presumed
  {
    if k < |bos| - 1 { NotedThere(addr, bos[..|bos| - 1], k); }
  }

  /** Any addresses for the buffers of the table can be had by placing those buffers. */
  lemma PlacedTable(addr: seq<nat>, bufs: seq<seq<Byte>>, r: Request, table: seq<nat>)
    requires |addr| == |bufs| && Shaped(bufs, r) && |table| == |r.bos|
    ensures Table(Noted(addr, Updated(r.bos, table)), r.bos) == table
  {
    var bos := Updated(r.bos, table);
    forall k | 0 <= k < |bos| ensures Noted(addr, bos)[bos[k].handle] == table[k] {
      NotedThere(addr, bos, k);
    }
  }

  lemma UpdatedIdle(bos: seq<Bo>)
    ensures Updated(bos, Presumed(bos)) == bos
  {
  }

  /** The same buffers in another placement by the kernel. */
  ghost predicate Placement(g: Gpu, h: Gpu) {
    h.bufs == g.bufs && |h.addr| == |g.addr|
  }

  /** The submit ends in the same way with and without skipping, wherever the kernel has the buffers. */
  ghost predicate AlwaysAgrees(g: Gpu, r: Request)
    requires Possible(g, Submit(r))
  {
    forall h :: Placement(g, h) ==> After(h, Submit(r), true) == After(h, Submit(r), false)
  }

  /** A submit may skip, wherever the kernel has the buffers, exactly under a condition on what the
      caller passes: its streams and its table. */
  lemma SubmitExact(g: Gpu, r: Request)
    requires Possible(g, Submit(r)) && AllSorted(r.cmds)
    ensures AlwaysAgrees(g, r) <==> Skippable(g.bufs, r)
  {
    if Skippable(g.bufs, r) {
      forall h | Placement(g, h) ensures After(h, Submit(r), true) == After(h, Submit(r), false) {
        PatchedAgree(g.bufs, r, Table(h.addr, r.bos));
      }
    }
    if AlwaysAgrees(g, r) {
      forall k | 0 <= k < |g.bufs| ensures Sound(g.bufs[k], Relocs(g.bufs, r.bos, r.cmds, k), Presumed(r.bos)) {
        var sites := Relocs(g.bufs, r.bos, r.cmds, k);
        forall table: seq<nat> | |table| == |r.bos| ensures Agree(g.bufs[k], sites, Presumed(r.bos), table) {
          AgreesWith(g, r, table, k);
        }
        SoundExact(g.bufs[k], sites, Presumed(r.bos));
      }
    }
  }

  lemma AgreesWith(g: Gpu, r: Request, table: seq<nat>, k: nat)
    requires Possible(g, Submit(r)) && AllSorted(r.cmds) && AlwaysAgrees(g, r) && |table| == |r.bos| && k < |g.bufs|
    ensures Agree(g.bufs[k], Relocs(g.bufs, r.bos, r.cmds, k), Presumed(r.bos), table)
  {
    var h := g.(addr := Noted(g.addr, Updated(r.bos, table)));
    assert Placement(g, h);
    PlacedTable(g.addr, g.bufs, r, table);
    assert Patched(g.bufs, r, table, true)[k] == Patched(g.bufs, r, table, false)[k];
  }

  /** If no relocations overlap, the condition is that the streams hold the words for the presumed
      addresses passed. */
  lemma DisjointExact(g: Gpu, r: Request)
    requires Possible(g, Submit(r)) && AllSorted(r.cmds) && Disjoint(g.bufs, r)
    ensures AlwaysAgrees(g, r) <==> Honest(g.bufs, r)
  {
    SubmitExact(g, r);
    forall h | 0 <= h < |g.bufs|
      ensures var sites := Relocs(g.bufs, r.bos, r.cmds, h);
              Sound(g.bufs[h], sites, Presumed(r.bos)) <==> HoldsAll(g.bufs[h], sites, Presumed(r.bos))
    {
      ApartSound(g.bufs[h], Relocs(g.bufs, r.bos, r.cmds, h), Presumed(r.bos));
    }
  }

  /** Relocations of the request that overlap have the same target. */
  ghost predicate SharedTargets(bufs: seq<seq<Byte>>, r: Request)
    requires Shaped(bufs, r)
  {
    forall h :: 0 <= h < |bufs| ==> OneTarget(Relocs(bufs, r.bos, r.cmds, h))
  }

  ghost predicate OnlySums(bufs: seq<seq<Byte>>, r: Request)
    requires Shaped(bufs, r)
  {
    forall h :: 0 <= h < |bufs| ==> Sums(Relocs(bufs, r.bos, r.cmds, h))
  }

  /** For words `addr + offset`, honest requests may overlap exactly where the targets are the same. */
  lemma SumsExact(g: Gpu, r: Request)
    requires Possible(g, Submit(r)) && AllSorted(r.cmds) && OnlySums(g.bufs, r)
    ensures AlwaysAgrees(g, r) <==> ShowsAll(g.bufs, r) && SharedTargets(g.bufs, r)
    ensures Honest(g.bufs, r) ==> (AlwaysAgrees(g, r) <==> SharedTargets(g.bufs, r))
  {
    SubmitExact(g, r);
    forall h | 0 <= h < |g.bufs|
      ensures var sites := Relocs(g.bufs, r.bos, r.cmds, h);
              Sound(g.bufs[h], sites, Presumed(r.bos)) <==> Shows(g.bufs[h], sites, Presumed(r.bos)) && OneTarget(sites)
    {
      SumsSound(g.bufs[h], Relocs(g.bufs, r.bos, r.cmds, h), Presumed(r.bos));
    }
    if Honest(g.bufs, r) { HonestShows(g.bufs, r); }
  }

  lemma HonestShows(bufs: seq<seq<Byte>>, r: Request)
    requires Shaped(bufs, r) && Honest(bufs, r)
    ensures ShowsAll(bufs, r)
  {
    forall h | 0 <= h < |bufs| ensures Shows(bufs[h], Relocs(bufs, r.bos, r.cmds, h), Presumed(r.bos)) {
      HoldsShows(bufs[h], Relocs(bufs, r.bos, r.cmds, h), Presumed(r.bos));
    }
  }

  lemma DisjointShows(bufs: seq<seq<Byte>>, r: Request)
    requires Shaped(bufs, r) && Disjoint(bufs, r)
    ensures ShowsAll(bufs, r) <==> Honest(bufs, r)
  {
    forall h | 0 <= h < |bufs|
      ensures var sites := Relocs(bufs, r.bos, r.cmds, h);
              Shows(bufs[h], sites, Presumed(r.bos)) <==> HoldsAll(bufs[h], sites, Presumed(r.bos))
    {
      ApartSound(bufs[h], Relocs(bufs, r.bos, r.cmds, h), Presumed(r.bos));
    }
  }

  lemma HonestSkippable(bufs: seq<seq<Byte>>, r: Request)
    requires Shaped(bufs, r) && Disjoint(bufs, r) && Honest(bufs, r)
    ensures Skippable(bufs, r)
  {
    forall h | 0 <= h < |bufs| ensures Sound(bufs[h], Relocs(bufs, r.bos, r.cmds, h), Presumed(r.bos)) {
      ApartSound(bufs[h], Relocs(bufs, r.bos, r.cmds, h), Presumed(r.bos));
    }
  }

  /** A softpin submit maps every buffer of its table at the presumed address and changes no stream,
      whatever the streams hold; these are the relocated streams exactly when they show the words for
      those addresses. */
  lemma SoftpinPatchesNothing(g: Gpu, r: Request, k: nat, h: nat)
    requires Possible(g, Softpin(r, true)) && AllSorted(r.cmds)
    ensures var e := After(g, Softpin(r, true), true);
            && e.outcome == Done && e.gpu.bufs == g.bufs && e.bos == r.bos
            && (k < |r.bos| ==> e.gpu.addr[r.bos[k].handle] == r.bos[k].presumed)
            && (h < |g.addr| && (forall j :: 0 <= j < |r.bos| ==> r.bos[j].handle != h) ==> e.gpu.addr[h] == g.addr[h])
    ensures After(g, Softpin(r, true), false).gpu.bufs == g.bufs <==> ShowsAll(g.bufs, r)
  {
    UpdatedIdle(r.bos);
    PlacedTable(g.addr, g.bufs, r, Presumed(r.bos));
    PresumedPlaces(g.bufs, r);
    if k < |r.bos| { NotedThere(g.addr, r.bos, k); }
    if h < |g.addr| && forall j :: 0 <= j < |r.bos| ==> r.bos[j].handle != h { NotedElsewhere(g.addr, r.bos, h); }
  }

  /** What a submit leaves at byte p of buffer h: the byte that the last relocation to cover it has
      for the current address of its target, or what was there. */
  function FinalByte(g: Gpu, r: Request, h: nat, p: nat): Byte
    requires Possible(g, Submit(r)) && h < |g.bufs| && p < |g.bufs[h]|
  {
    var sites := Relocs(g.bufs, r.bos, r.cmds, h);
    var l := Last(sites, |sites|, p);
    if l < 0 then g.bufs[h][p] else ByteAt(sites[l], g.addr[r.bos[sites[l].target].handle], p)
  }

  /** What a submit achieves, however much it skips. Unsorted relocations are refused and change
      nothing. Otherwise every byte is that of the last relocation for the current address, or
      untouched, so that relocations that do not overlap are all in place; and the table comes back
      with the current addresses. */
  lemma SubmitMeaning(g: Gpu, r: Request, h: nat)
    requires Allowed(g, Submit(r)) && h < |g.bufs|
    ensures var e := After(g, Submit(r), true);
            && (e.outcome == Done <==> AllSorted(r.cmds))
            && (e.outcome != Done ==> e == Result(g, Einval, r.bos))
            && (e.outcome == Done ==>
                  && e.gpu.addr == g.addr && |e.gpu.bufs[h]| == |g.bufs[h]| && |e.bos| == |r.bos|
                  && (forall k :: 0 <= k < |r.bos| ==> e.bos[k] == Bo(r.bos[k].handle, g.addr[r.bos[k].handle]))
                  && (forall p: nat :: p < |g.bufs[h]| ==> e.gpu.bufs[h][p] == FinalByte(g, r, h, p))
                  && var sites := Relocs(g.bufs, r.bos, r.cmds, h);
                     Apart(sites) ==>
                       forall i :: 0 <= i < |sites| ==> Holds(e.gpu.bufs[h], sites[i], g.addr[r.bos[sites[i].target].handle]))
  {
    if AllSorted(r.cmds) {
      PatchedAgree(g.bufs, r, Table(g.addr, r.bos));
      PatchedAt(g, r, h, false);
      BytesMeaning(g, r, h);
    }
  }

  lemma BytesMeaning(g: Gpu, r: Request, h: nat)
    requires Possible(g, Submit(r)) && h < |g.bufs|
    ensures var sites, table := Relocs(g.bufs, r.bos, r.cmds, h), Table(g.addr, r.bos);
            var after := PatchedBuffer(g.bufs[h], sites, Presumed(r.bos), table, false);
            && (forall p: nat :: p < |g.bufs[h]| ==> after[p] == FinalByte(g, r, h, p))
            && (Apart(sites) ==> forall i :: 0 <= i < |sites| ==> Holds(after, sites[i], table[sites[i].target]))
  {
    var sites, table := Relocs(g.bufs, r.bos, r.cmds, h), Table(g.addr, r.bos);
    if Apart(sites) { FullMeaning(g.bufs[h], sites, table); }
    forall p: nat | p < |g.bufs[h]| ensures Full(g.bufs[h], sites, table, |sites|)[p] == FinalByte(g, r, h, p) {
      FullByte(g.bufs[h], sites, table, |sites|, p);
    }
  }

  lemma PatchedAt(g: Gpu, r: Request, h: nat, skip: bool)
    requires Possible(g, Submit(r)) && AllSorted(r.cmds) && h < |g.bufs|
    ensures After(g, Submit(r), skip).gpu.bufs[h] ==
            PatchedBuffer(g.bufs[h], Relocs(g.bufs, r.bos, r.cmds, h), Presumed(r.bos), Table(g.addr, r.bos), skip)
  {
  }

  /** The relocated words of a submit, as numbers: `((gpuaddr + reloc_offset) << shift) | or` cut to 32
      bits for msm, `gpuaddr + reloc_offset` for etnaviv, wherever nothing overlaps. */
  lemma SubmittedWords(g: Gpu, r: Request, h: nat, i: nat)
    requires Allowed(g, Submit(r)) && AllSorted(r.cmds) && h < |g.bufs|
    requires Apart(Relocs(g.bufs, r.bos, r.cmds, h)) && i < |Relocs(g.bufs, r.bos, r.cmds, h)|
    ensures var s := Relocs(g.bufs, r.bos, r.cmds, h)[i];
            var addr, now := g.addr[r.bos[s.target].handle], After(g, Submit(r), true).gpu.bufs[h];
            && |now| == |g.bufs[h]|
            && (s.form.Sum? ==> ReadWord(now, s) == (addr + s.form.delta) % Pow256(s.form.bytes))
            && forall b: nat :: Bit(ReadWord(now, s), b) <==> RelocatedBit(s.form, addr, b)
  {
    SubmitMeaning(g, r, h);
    var s := Relocs(g.bufs, r.bos, r.cmds, h)[i];
    HeldWord(After(g, Submit(r), true).gpu.bufs[h], s, g.addr[r.bos[s.target].handle]);
  }

  /** Offsets increase strictly along every stream. */
  ghost predicate Increasing(cmds: seq<Cmd>) {
    forall k, i, j :: 0 <= k < |cmds| && 0 <= i < j < |cmds[k].relocs| ==> cmds[k].relocs[i].offset < cmds[k].relocs[j].offset
  }

  lemma SortedIsIncreasing(cmds: seq<Cmd>)
    ensures AllSorted(cmds) <==> Increasing(cmds)
  {
    if AllSorted(cmds) {
      forall k, i, j | 0 <= k < |cmds| && 0 <= i < j < |cmds[k].relocs| ensures cmds[k].relocs[i].offset < cmds[k].relocs[j].offset {
        assert cmds[k] in cmds;
        SpacedOrder(cmds[k].relocs, 1, i, j);
      }
    }
    if Increasing(cmds) {
      forall c | c in cmds ensures Sorted(c.relocs) {
        var k :| 0 <= k < |cmds| && cmds[k] == c;
      }
    }
  }

  /** When a submit is refused, and with what; a refused submit changes nothing. */
  lemma Refusals(g: Gpu, r: Request, placeable: bool, skip: bool)
    requires Possible(g, Submit(r))
    ensures After(g, Submit(r), skip).outcome == if Increasing(r.cmds) then Done else Einval
    ensures After(g, Softpin(r, placeable), skip).outcome ==
            if !Increasing(r.cmds) then Einval else if placeable then Done else Unmappable
    ensures After(g, Submit(r), skip).outcome != Done ==> After(g, Submit(r), skip).gpu == g && After(g, Submit(r), skip).bos == r.bos
    ensures After(g, Softpin(r, placeable), skip).outcome != Done ==>
              After(g, Softpin(r, placeable), skip).gpu == g && After(g, Softpin(r, placeable), skip).bos == r.bos
  {
    SortedIsIncreasing(r.cmds);
  }

  /** The other steps change one buffer's address or contents. */
  lemma OtherSteps(g: Gpu, h: nat, a: nat, contents: seq<Byte>, skip: bool, j: nat)
    requires |g.addr| == |g.bufs| && h < |g.addr| && j < |g.addr|
    ensures var moved := After(g, Move(h, a), skip).gpu; moved.addr[j] == (if j == h then a else g.addr[j]) && moved.bufs == g.bufs
    ensures var emitted := After(g, Emit(h, contents), skip).gpu;
            emitted.bufs[j] == (if j == h then contents else g.bufs[j]) && emitted.addr == g.addr
  {
  }

  // ----- overlapping relocations

  /** A sorted request of two overlapping words for different targets. */
  function OverlapRequest(): Request {
    Request([Bo(0, 0), Bo(1, 0), Bo(2, 0)], [Cmd(2, [Site(0, 0, Sum(0, 4)), Site(2, 1, Sum(0, 4))])])
  }

  function OverlapGpu(): Gpu {
    Gpu([0x10000, 0, 0], [[], [], [0, 0, 0, 0, 0, 0]])
  }

  lemma OverlapRelocs(h: nat)
    requires h < 3
    ensures var bufs, r := OverlapGpu().bufs, OverlapRequest();
            && Shaped(bufs, r) && AllSorted(r.cmds)
            && Relocs(bufs, r.bos, r.cmds, h) == if h == 2 then r.cmds[0].relocs else []
  {
    var bufs, r := OverlapGpu().bufs, OverlapRequest();
    assert CmdFits(bufs, r.bos, r.cmds[0]);
    assert r.cmds[..0] == [];
  }

  lemma ZeroWord()
    ensures LittleEndian(0, 4) == [0, 0, 0, 0] && LittleEndian(0x10000, 4)[2] == 1
  {
    Digit(0x10000, 4, 2);
    assert Pow256(2) == 0x10000;
    forall k: nat | k < 4 ensures LittleEndian(0, 4)[k] == 0 { ZeroDigit(4, k); }
  }

  lemma ZeroDigit(n: nat, k: nat)
    requires k < n
    ensures LittleEndian(0, n)[k] == 0
  {
    Digit(0, n, k);
    QuotientIs(0, Pow256(k), 0, 0);
  }

  /** Honesty alone does not let overlapping relocations be skipped. */
  lemma OverlapBreaksSkipping()
    ensures var g, r := OverlapGpu(), OverlapRequest();
            && Possible(g, Submit(r)) && AllSorted(r.cmds) && Words(r.cmds[0].relocs) && Honest(g.bufs, r)
            && After(g, Submit(r), true).gpu.bufs[2] != After(g, Submit(r), false).gpu.bufs[2]
  {
    var g, r := OverlapGpu(), OverlapRequest();
    OverlapHonest(g.bufs, r);
    OverlapDiffers(g, r);
  }

  lemma OverlapDiffers(g: Gpu, r: Request)
    requires g == OverlapGpu() && r == OverlapRequest()
    ensures Possible(g, Submit(r)) && After(g, Submit(r), true).gpu.bufs[2] != After(g, Submit(r), false).gpu.bufs[2]
  {
    OverlapRelocs(2);
    OverlapBytes(g.bufs[2], r.cmds[0].relocs, Presumed(r.bos), Table(g.addr, r.bos));
    PatchedAt(g, r, 2, true);
    PatchedAt(g, r, 2, false);
  }

  lemma OverlapHonest(bufs: seq<seq<Byte>>, r: Request)
    requires bufs == OverlapGpu().bufs && r == OverlapRequest()
    ensures Shaped(bufs, r) && AllSorted(r.cmds) && Words(r.cmds[0].relocs) && Honest(bufs, r)
  {
    OverlapRelocs(0);
    forall h: nat | h < |bufs| ensures HoldsAll(bufs[h], Relocs(bufs, r.bos, r.cmds, h), Presumed(r.bos)) {
      OverlapRelocs(h);
      if h == 2 { OverlapBytes(bufs[2], r.cmds[0].relocs, Presumed(r.bos), [0x10000, 0, 0]); }
    }
  }

  lemma OverlapBytes(buf: seq<Byte>, sites: seq<Site>, presumed: seq<nat>, table: seq<nat>)
    requires buf == [0, 0, 0, 0, 0, 0] && sites == OverlapRequest().cmds[0].relocs && presumed == [0, 0, 0] && table == [0x10000, 0, 0]
    ensures InBounds(buf, sites, table) && HoldsAll(buf, sites, presumed)
    ensures PatchedBuffer(buf, sites, presumed, table, true)[2] != PatchedBuffer(buf, sites, presumed, table, false)[2]
  {
    ZeroWord();
    assert buf[0..4] == [0, 0, 0, 0] && buf[2..6] == [0, 0, 0, 0];
    FullByte(buf, sites, table, 2, 2);
    SkippingByte(buf, sites, presumed, table, 2, 2);
    assert Last(sites, 2, 2) == 1 && LastStale(sites, presumed, table, 2, 2) == 0;
  }

  // ----- runs

  lemma StepAgrees(g: Gpu, step: Step)
    requires Allowed(g, step)
    ensures After(g, step, true) == After(g, step, false)
  {
    if (step.Submit? || step.Softpin?) && AllSorted(step.request.cmds) {
      PatchedAgree(g.bufs, step.request, Table(g.addr, step.request.bos));
      PatchedAgree(g.bufs, step.request, Table(Noted(g.addr, step.request.bos), step.request.bos));
    }
  }

  ghost predicate Runs(g: Gpu, steps: seq<Step>, skip: bool)
    decreases |steps|
  {
    steps == [] || (Allowed(g, steps[0]) && Runs(After(g, steps[0], skip).gpu, steps[1..], skip))
  }

  /** The results of all steps. */
  ghost function Results(g: Gpu, steps: seq<Step>, skip: bool): (rs: seq<Result>)
    requires Runs(g, steps, skip)
    ensures |rs| == |steps|
    decreases |steps|
  {
    if steps == [] then []
    else var e := After(g, steps[0], skip); [e] + Results(e.gpu, steps[1..], skip)
  }

  /** In every run of moves, emitted streams and submits of any tables and streams, as long as each
      submit meets the exact condition of `SubmitExact`, skipping gives the same
      buffers, addresses, tables and errors after every step as patching every word. */
  lemma {:induction false} SkippingIsInvisible(g: Gpu, steps: seq<Step>)
    requires Runs(g, steps, false)
    ensures Runs(g, steps, true) && Results(g, steps, true) == Results(g, steps, false)
    decreases |steps|
  {
    if steps != [] {
      StepAgrees(g, steps[0]);
      SkippingIsInvisible(After(g, steps[0], false).gpu, steps[1..]);
    }
  }

  // ----- the submit ioctl, in place

  class Queue {
    var addr: seq<nat>
    var bufs: seq<seq<Byte>>

    ghost function View(): Gpu
      reads this
    {
      Gpu(addr, bufs)
    }

    constructor (g: Gpu)
      ensures View() == g
    {
      addr, bufs := g.addr, g.bufs;
    }

    method Run(r: Request) returns (outcome: Outcome, bos: seq<Bo>)
      requires Possible(View(), Submit(r))
      modifies this
      ensures Result(View(), outcome, bos) == After(old(View()), Submit(r), true)
    {
      var sorted := CheckAllSorted(r.cmds);
      if !sorted { return Einval, r.bos; }
      var table, presumed := Table(addr, r.bos), Presumed(r.bos);
      ghost var before := bufs;
      for j := 0 to |r.cmds|
        invariant addr == old(addr) && Shaped(before, SoFar(r, j))
        invariant bufs == Patched(before, SoFar(r, j), table, true)
      {
        var c := r.cmds[j];
        NextCmd(before, r, j, table);
        var h := r.bos[c.buffer].handle;
        var buf, _ := RelocateCopy(bufs[h], c.relocs, Current(c.relocs, presumed), table);
        bufs := bufs[h := buf];
      }
      assert SoFar(r, |r.cmds|) == r;
      outcome, bos := Done, Updated(r.bos, table);
    }
  }

  /** The request with its first j streams. */
  function SoFar(r: Request, j: nat): Request
    requires j <= |r.cmds|
  {
    Request(r.bos, r.cmds[..j])
  }

  /** One more stream patches its own buffer and no other. */
  lemma NextCmd(bufs: seq<seq<Byte>>, r: Request, j: nat, table: seq<nat>)
    requires Shaped(bufs, r) && j < |r.cmds| && |table| == |r.bos|
    ensures Shaped(bufs, SoFar(r, j)) && Shaped(bufs, SoFar(r, j + 1)) && CmdFits(bufs, r.bos, r.cmds[j])
    ensures var c, sofar := r.cmds[j], Patched(bufs, SoFar(r, j), table, true);
            var h := r.bos[c.buffer].handle;
            && InBounds(sofar[h], c.relocs, table)
            && Patched(bufs, SoFar(r, j + 1), table, true) ==
               sofar[h := PatchedBuffer(sofar[h], c.relocs, Presumed(r.bos), table, true)]
  {
    ShapedSoFar(bufs, r, j);
    var h, sofar := r.bos[r.cmds[j].buffer].handle, Patched(bufs, SoFar(r, j), table, true);
    var after := sofar[h := PatchedBuffer(sofar[h], r.cmds[j].relocs, Presumed(r.bos), table, true)];
    var next := Patched(bufs, SoFar(r, j + 1), table, true);
    forall k: nat | k < |bufs| ensures next[k] == after[k] { PatchedNext(bufs, r, j, table, k); }
    assert next == after;
  }

  lemma ShapedSoFar(bufs: seq<seq<Byte>>, r: Request, j: nat)
    requires Shaped(bufs, r) && j < |r.cmds|
    ensures Shaped(bufs, SoFar(r, j)) && Shaped(bufs, SoFar(r, j + 1))
    ensures r.cmds[j] in r.cmds && CmdFits(bufs, r.bos, r.cmds[j])
  {
  }

  lemma PatchedNext(bufs: seq<seq<Byte>>, r: Request, j: nat, table: seq<nat>, k: nat)
    requires Shaped(bufs, r) && j < |r.cmds| && |table| == |r.bos| && k < |bufs|
    requires Shaped(bufs, SoFar(r, j)) && Shaped(bufs, SoFar(r, j + 1)) && CmdFits(bufs, r.bos, r.cmds[j])
    ensures var done := Patched(bufs, SoFar(r, j), table, true)[k];
            Patched(bufs, SoFar(r, j + 1), table, true)[k] ==
            if k == r.bos[r.cmds[j].buffer].handle then PatchedBuffer(done, r.cmds[j].relocs, Presumed(r.bos), table, true) else done
  {
    var c := r.cmds[j];
    var a, both := Relocs(bufs, r.bos, r.cmds[..j], k), Relocs(bufs, r.bos, r.cmds[..j + 1], k);
    RelocsNext(bufs, r.bos, r.cmds, j, k);
    if k == r.bos[c.buffer].handle {
      assert forall i :: 0 <= i < |c.relocs| ==> Fits(c.relocs[i], |bufs[k]|, |r.bos|);
      PatchTwice(bufs[k], a, c.relocs, both, Presumed(r.bos), table);
    } else {
      assert both == a;
    }
  }

  lemma RelocsNext(bufs: seq<seq<Byte>>, bos: seq<Bo>, cmds: seq<Cmd>, j: nat, h: nat)
    requires j < |cmds| && h < |bufs| && forall c :: c in cmds ==> CmdFits(bufs, bos, c)
    ensures cmds[j] in cmds
    ensures Relocs(bufs, bos, cmds[..j + 1], h) == Relocs(bufs, bos, cmds[..j], h) + if bos[cmds[j].buffer].handle == h then cmds[j].relocs else []
  {
    assert cmds[..j + 1][..j] == cmds[..j];
  }

  lemma PatchTwice(buf: seq<Byte>, a: seq<Site>, b: seq<Site>, both: seq<Site>, presumed: seq<nat>, table: seq<nat>)
    requires |presumed| == |table| && both == a + b
    requires InBounds(buf, a, table) && InBounds(buf, b, table) && InBounds(buf, both, table)
    ensures PatchedBuffer(buf, both, presumed, table, true) ==
            PatchedBuffer(PatchedBuffer(buf, a, presumed, table, true), b, presumed, table, true)
  {
    CurrentTwoLists(a, b, presumed);
    SkippingTwoLists(buf, a, b, Current(a, presumed), Current(b, presumed), table, |b|);
  }

  lemma CurrentTwoLists(a: seq<Site>, b: seq<Site>, presumed: seq<nat>)
    requires forall i :: 0 <= i < |a| ==> a[i].target < |presumed|
    requires forall i :: 0 <= i < |b| ==> b[i].target < |presumed|
    ensures Current(a + b, presumed) == Current(a, presumed) + Current(b, presumed)
  {
  }

  method CheckAllSorted(cmds: seq<Cmd>) returns (ok: bool)
    ensures ok == AllSorted(cmds)
  {
    for j := 0 to |cmds|
      invariant forall i :: 0 <= i < j ==> Sorted(cmds[i].relocs)
    {
      ok := CheckSorted(cmds[j].relocs);
      if !ok { return; }
    }
    ok := true;
  }

  method CheckSorted(sites: seq<Site>) returns (ok: bool)
    ensures ok == Sorted(sites)
  {
    var i := 1;
    while i < |sites|
      invariant 1 <= i
      invariant forall k :: 0 < k < i && k < |sites| ==> sites[k - 1].offset < sites[k].offset
    {
      if sites[i - 1].offset >= sites[i].offset { return false; }
      i := i + 1;
    }
    ok := true;
  }
}
