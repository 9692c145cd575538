/** What user space has to do so that msm and etnaviv submits may skip. The kernel gives back the
    current addresses of the buffers of one submit; a stream that was not part of it still holds the
    words for the old ones. */
module SubmitRuns {
  import opened Bytes
  import opened Relocation
  import opened Overlaps
  import opened CommandSubmit

  // ----- a discipline that is safe

  /** A library that remembers, for every buffer, the address last returned (`known`) and the
      relocations of the stream in it (`program`, with handles as targets). */
  datatype Library = Library(gpu: Gpu, known: seq<nat>, program: seq<seq<Site>>)

  datatype Action =
    | Moved(handle: nat, to: nat)
    | Emitted(handle: nat, contents: seq<Byte>, sites: seq<Site>)
    | Submitted(request: Request)

  /** Every stream holds the words for the known addresses. */
  ghost predicate Tracks(l: Library) {
    && |l.gpu.addr| == |l.gpu.bufs| == |l.known| == |l.program|
    && forall h :: 0 <= h < |l.gpu.bufs| ==> StreamOk(l.gpu.bufs[h], l.program[h], l.known)
  }

  ghost predicate StreamOk(buf: seq<Byte>, sites: seq<Site>, known: seq<nat>) {
    InBounds(buf, sites, known) && Apart(sites) && HoldsAll(buf, sites, known)
  }

  /** Relocations with handles as targets instead of places in the table. */
  function Resolved(bos: seq<Bo>, sites: seq<Site>): (r: seq<Site>)
    requires forall i :: 0 <= i < |sites| ==> sites[i].target < |bos|
    ensures |r| == |sites|
    ensures forall i :: 0 <= i < |sites| ==> r[i] == sites[i].(target := bos[sites[i].target].handle)
  {
    seq(|sites|, i requires 0 <= i < |sites| => sites[i].(target := bos[sites[i].target].handle))
  }

  /** The stream in buffer h takes part with all its relocations, or not at all; in that case none of
      its targets is in the table. */
  ghost predicate WholeOrUntouched(l: Library, r: Request, h: nat)
    requires Tracks(l) && Shaped(l.gpu.bufs, r) && h < |l.gpu.bufs|
  {
    var sites := Resolved(r.bos, Relocs(l.gpu.bufs, r.bos, r.cmds, h));
    || sites == l.program[h]
    || (sites == [] && forall i, k :: 0 <= i < |l.program[h]| && 0 <= k < |r.bos| ==> l.program[h][i].target != r.bos[k].handle)
  }

  /** A request that passes the known addresses, together with every stream that uses one of them. */
  ghost predicate Closed(l: Library, r: Request)
    requires Tracks(l) && Shaped(l.gpu.bufs, r)
  {
    && (forall k :: 0 <= k < |r.bos| ==> r.bos[k].presumed == l.known[r.bos[k].handle])
    && (forall h :: 0 <= h < |l.gpu.bufs| ==> WholeOrUntouched(l, r, h))
  }

  ghost predicate Disciplined(l: Library, a: Action)
    requires Tracks(l)
  {
    match a
    case Moved(h, _) => h < |l.known|
    case Emitted(h, contents, sites) => h < |l.known| && StreamOk(contents, sites, l.known)
    case Submitted(r) => Shaped(l.gpu.bufs, r) && Closed(l, r)
  }

  function StepOf(a: Action): Step {
    match a
    case Moved(h, to) => Move(h, to)
    case Emitted(h, contents, _) => Emit(h, contents)
    case Submitted(r) => Submit(r)
  }

  function StepsOf(actions: seq<Action>): (r: seq<Step>)
    ensures |r| == |actions|
  {
    seq(|actions|, i requires 0 <= i < |actions| => StepOf(actions[i]))
  }

  /** The library notes the addresses that a submit returns. */
  function Next(l: Library, a: Action): Library
    requires Tracks(l) && Disciplined(l, a)
  {
    var e := After(l.gpu, StepOf(a), false);
    match a
    case Moved(_, _) => l.(gpu := e.gpu)
    case Emitted(h, _, sites) => l.(gpu := e.gpu, program := l.program[h := sites])
    case Submitted(r) =>
      if e.outcome == Done then l.(gpu := e.gpu, known := Noted(l.known, Updated(r.bos, Table(l.gpu.addr, r.bos)))) else l
  }

  lemma ClosedIsHonest(l: Library, r: Request, h: nat)
    requires Tracks(l) && Shaped(l.gpu.bufs, r) && Closed(l, r) && h < |l.gpu.bufs|
    ensures var sites := Relocs(l.gpu.bufs, r.bos, r.cmds, h);
            Apart(sites) && HoldsAll(l.gpu.bufs[h], sites, Presumed(r.bos))
  {
    var sites := Relocs(l.gpu.bufs, r.bos, r.cmds, h);
    var resolved := Resolved(r.bos, sites);
    assert WholeOrUntouched(l, r, h) && StreamOk(l.gpu.bufs[h], l.program[h], l.known);
    forall i | 0 <= i < |sites| ensures Holds(l.gpu.bufs[h], sites[i], Presumed(r.bos)[sites[i].target]) {
      assert Holds(l.gpu.bufs[h], resolved[i], l.known[resolved[i].target]);
    }
    forall i, j | 0 <= i < j < |sites| ensures sites[i].End() <= sites[j].offset || sites[j].End() <= sites[i].offset {
      assert resolved[i].End() <= resolved[j].offset || resolved[j].End() <= resolved[i].offset;
    }
  }

  lemma DisciplineAllows(l: Library, a: Action)
    requires Tracks(l) && Disciplined(l, a)
    ensures Allowed(l.gpu, StepOf(a))
  {
    if a.Submitted? {
      forall h | 0 <= h < |l.gpu.bufs|
        ensures Apart(Relocs(l.gpu.bufs, a.request.bos, a.request.cmds, h))
        ensures HoldsAll(l.gpu.bufs[h], Relocs(l.gpu.bufs, a.request.bos, a.request.cmds, h), Presumed(a.request.bos))
      {
        ClosedIsHonest(l, a.request, h);
      }
      HonestSkippable(l.gpu.bufs, a.request);
    }
  }

  /** A stream that takes part is brought up to date with all that the submit returns. */
  lemma PartTaken(buf: seq<Byte>, sites: seq<Site>, program: seq<Site>, bos: seq<Bo>, table: seq<nat>, known: seq<nat>)
    requires |table| == |bos| && InBounds(buf, sites, table) && Apart(sites)
    requires program == Resolved(bos, sites) && forall k :: 0 <= k < |bos| ==> bos[k].handle < |known| && known[bos[k].handle] == table[k]
    ensures StreamOk(Full(buf, sites, table, |sites|), program, known)
  {
    FullMeaning(buf, sites, table);
    var now := Full(buf, sites, table, |sites|);
    forall i | 0 <= i < |program| ensures Holds(now, program[i], known[program[i].target]) {
      assert Holds(now, sites[i], table[sites[i].target]);
    }
    forall i, j | 0 <= i < j < |program| ensures program[i].End() <= program[j].offset || program[j].End() <= program[i].offset {
      assert sites[i].End() <= sites[j].offset || sites[j].End() <= sites[i].offset;
    }
  }

  lemma StreamStaysOk(l: Library, r: Request, h: nat)
    requires Tracks(l) && Shaped(l.gpu.bufs, r) && Closed(l, r) && AllSorted(r.cmds) && h < |l.gpu.bufs|
    ensures var l' := Next(l, Submitted(r)); |l'.known| == |l.known| && StreamOk(l'.gpu.bufs[h], l.program[h], l'.known)
  {
    var bufs, table := l.gpu.bufs, Table(l.gpu.addr, r.bos);
    var sites := Relocs(bufs, r.bos, r.cmds, h);
    ClosedIsHonest(l, r, h);
    PatchedAt(l.gpu, r, h, false);
    assert WholeOrUntouched(l, r, h) && StreamOk(bufs[h], l.program[h], l.known);
    if Resolved(r.bos, sites) == l.program[h] {
      KnownReturned(l.known, r.bos, table);
      PartTaken(bufs[h], sites, l.program[h], r.bos, table, Noted(l.known, Updated(r.bos, table)));
    } else {
      NotTouched(bufs[h], l.program[h], l.known, Updated(r.bos, table));
    }
  }

  lemma KnownReturned(known: seq<nat>, bos: seq<Bo>, table: seq<nat>)
    requires |table| == |bos| && forall k :: 0 <= k < |bos| ==> bos[k].handle < |known|
    requires forall j, k :: 0 <= j < k < |bos| ==> bos[j].handle != bos[k].handle
    ensures forall k :: 0 <= k < |bos| ==> Noted(known, Updated(bos, table))[bos[k].handle] == table[k]
  {
    forall k | 0 <= k < |bos| ensures Noted(known, Updated(bos, table))[bos[k].handle] == table[k] {
      NotedThere(known, Updated(bos, table), k);
    }
  }

  /** A stream with no target in the table stays right as it is. */
  lemma NotTouched(buf: seq<Byte>, program: seq<Site>, known: seq<nat>, bos: seq<Bo>)
    requires StreamOk(buf, program, known) && forall k :: 0 <= k < |bos| ==> bos[k].handle < |known|
    requires forall i, k :: 0 <= i < |program| && 0 <= k < |bos| ==> program[i].target != bos[k].handle
    ensures StreamOk(buf, program, Noted(known, bos))
  {
    forall i | 0 <= i < |program| ensures Noted(known, bos)[program[i].target] == known[program[i].target] {
      NotedElsewhere(known, bos, program[i].target);
    }
  }

  lemma DisciplineKept(l: Library, a: Action)
    requires Tracks(l) && Disciplined(l, a)
    ensures Tracks(Next(l, a)) && Next(l, a).gpu == After(l.gpu, StepOf(a), false).gpu
  {
    if a.Submitted? && AllSorted(a.request.cmds) {
      forall h | 0 <= h < |l.gpu.bufs|
        ensures StreamOk(Next(l, a).gpu.bufs[h], l.program[h], Next(l, a).known)
      {
        StreamStaysOk(l, a.request, h);
      }
    }
  }

  ghost predicate DisciplinedRun(l: Library, actions: seq<Action>)
    requires Tracks(l)
    decreases |actions|
  {
    actions == [] ||
    (Disciplined(l, actions[0]) && Tracks(Next(l, actions[0])) && DisciplinedRun(Next(l, actions[0]), actions[1..]))
  }

  /** With one known address for each buffer, passing it on is safe in every run in which a submit
      brings along every stream that uses a buffer of its table. */
  lemma {:induction false} ClosedRequestsAreSafe(l: Library, actions: seq<Action>)
    requires Tracks(l) && DisciplinedRun(l, actions)
    ensures Runs(l.gpu, StepsOf(actions), false)
    decreases |actions|
  {
    if actions != [] {
      DisciplineAllows(l, actions[0]);
      DisciplineKept(l, actions[0]);
      ClosedRequestsAreSafe(Next(l, actions[0]), actions[1..]);
      assert StepsOf(actions)[1..] == StepsOf(actions[1..]);
    }
  }

  /** So in such a run it makes no difference to any result that the kernel skips. */
  lemma DisciplinedRunsAgree(l: Library, actions: seq<Action>)
    requires Tracks(l) && DisciplinedRun(l, actions)
    ensures var steps := StepsOf(actions);
            && Runs(l.gpu, steps, false) && Runs(l.gpu, steps, true)
            && Results(l.gpu, steps, true) == Results(l.gpu, steps, false)
  {
    ClosedRequestsAreSafe(l, actions);
    SkippingIsInvisible(l.gpu, StepsOf(actions));
  }

  // ----- and one that is not

  const SITE := Site(0, 0, Sum(0, 4))

  /** Buffers 1 and 2 are streams that refer to buffer 0, which lies at 10. */
  function TwoStreams(): Gpu {
    Gpu([10, 100, 200], [[], SITE.form.Image(10), SITE.form.Image(10)])
  }

  /** The stream in buffer `stream` with its target presumed at `presumed`. */
  function OneStream(stream: nat, presumed: nat): Request {
    Request([Bo(0, presumed), Bo(stream, 100 * stream)], [Cmd(1, [SITE])])
  }

  lemma OneStreamRelocs(bufs: seq<seq<Byte>>, stream: nat, presumed: nat, h: nat)
    requires |bufs| == 3 && |bufs[1]| == 4 && |bufs[2]| == 4 && 1 <= stream <= 2 && h < 3
    ensures var r := OneStream(stream, presumed);
            Shaped(bufs, r) && AllSorted(r.cmds) && Relocs(bufs, r.bos, r.cmds, h) == if h == stream then [SITE] else []
  {
    var r := OneStream(stream, presumed);
    assert CmdFits(bufs, r.bos, r.cmds[0]);
    assert r.cmds[..0] == [];
  }

  lemma OneStreamDisjoint(bufs: seq<seq<Byte>>, stream: nat, presumed: nat)
    requires |bufs| == 3 && |bufs[1]| == 4 && |bufs[2]| == 4 && 1 <= stream <= 2
    ensures Shaped(bufs, OneStream(stream, presumed)) && Disjoint(bufs, OneStream(stream, presumed))
    ensures Honest(bufs, OneStream(stream, presumed)) <==> bufs[stream] == SITE.form.Image(presumed)
  {
    var r := OneStream(stream, presumed);
    OneStreamRelocs(bufs, stream, presumed, stream);
    HoldsOne(bufs[stream], Presumed(r.bos));
    forall h | 0 <= h < |bufs|
      ensures var sites := Relocs(bufs, r.bos, r.cmds, h);
              Apart(sites) && (h != stream ==> HoldsAll(bufs[h], sites, Presumed(r.bos)))
    {
      OneStreamRelocs(bufs, stream, presumed, h);
    }
  }

  lemma HoldsOne(buf: seq<Byte>, presumed: seq<nat>)
    requires |buf| == 4 && |presumed| > 0
    ensures InBounds(buf, [SITE], presumed)
    ensures HoldsAll(buf, [SITE], presumed) <==> buf == SITE.form.Image(presumed[0])
  {
    var sites := [SITE];
    assert sites[0] == SITE && SITE.target == 0 && SITE.offset == 0 && SITE.End() == 4;
    assert buf[0..4] == buf;
    assert Holds(buf, SITE, presumed[0]) <==> buf == SITE.form.Image(presumed[0]);
  }

  /** Buffer 0 moves; a submit of stream 1 alone returns the new address; passing that address on with
      stream 2, which still holds the old one, leaves a stale word behind. */
  lemma LeftOutStreamGoesStale()
    ensures var g, steps := TwoStreams(), [Move(0, 20), Submit(OneStream(1, 10))];
            && Runs(g, steps, true)
            && var e := Results(g, steps, true)[1];
               && e.outcome == Done && e.bos[0] == OneStream(2, 20).bos[0]
               && Possible(e.gpu, Submit(OneStream(2, 20))) && !Honest(e.gpu.bufs, OneStream(2, 20))
               && After(e.gpu, Submit(OneStream(2, 20)), true).gpu.bufs != After(e.gpu, Submit(OneStream(2, 20)), false).gpu.bufs
  {
    var g := TwoStreams();
    var moved := After(g, Move(0, 20), true).gpu;
    FirstSubmit(moved);
    TwoSteps(g, Move(0, 20), Submit(OneStream(1, 10)));
    StaleSubmit(After(moved, Submit(OneStream(1, 10)), true).gpu);
  }

  lemma FirstSubmit(g: Gpu)
    requires g == Gpu([20, 100, 200], TwoStreams().bufs)
    ensures Allowed(g, Submit(OneStream(1, 10)))
    ensures var e := After(g, Submit(OneStream(1, 10)), true);
            && e.outcome == Done && e.bos[0] == Bo(0, 20)
            && e.gpu.addr == g.addr && |e.gpu.bufs| == 3 && |e.gpu.bufs[1]| == 4 && e.gpu.bufs[2] == g.bufs[2]
  {
    var r := OneStream(1, 10);
    OneStreamDisjoint(g.bufs, 1, 10);
    HonestSkippable(g.bufs, r);
    OneStreamRelocs(g.bufs, 1, 10, 2);
    PatchedAt(g, r, 2, true);
    assert After(g, Submit(r), true).bos[0] == Bo(0, g.addr[0]);
  }

  lemma StaleSubmit(g: Gpu)
    requires g.addr == [20, 100, 200] && |g.bufs| == 3 && |g.bufs[1]| == 4 && g.bufs[2] == SITE.form.Image(10)
    ensures var r := OneStream(2, 20);
            && Possible(g, Submit(r)) && !Honest(g.bufs, r)
            && After(g, Submit(r), true).gpu.bufs != After(g, Submit(r), false).gpu.bufs
  {
    var r := OneStream(2, 20);
    WordsDiffer();
    OneStreamDisjoint(g.bufs, 2, 20);
    OneStreamRelocs(g.bufs, 2, 20, 2);
    DisjointShows(g.bufs, r);
    assert Table(g.addr, r.bos) == Presumed(r.bos);
    PresumedPlaces(g.bufs, r);
  }

  lemma WordsDiffer()
    ensures SITE.form.Image(10) != SITE.form.Image(20)
  {
    SumImages(SITE.form, 10, 20);
    Widths();
  }

  lemma TwoSteps(g: Gpu, s1: Step, s2: Step)
    requires Allowed(g, s1) && Allowed(After(g, s1, true).gpu, s2)
    ensures Runs(g, [s1, s2], true) && Results(g, [s1, s2], true)[1] == After(After(g, s1, true).gpu, s2, true)
  {
    var steps := [s1, s2];
    assert steps[1..] == [s2] && steps[1..][1..] == [];
    var g1 := After(g, s1, true).gpu;
    assert Runs(After(g1, s2, true).gpu, [], true);
    assert Runs(g1, steps[1..], true) && Results(g1, steps[1..], true)[0] == After(g1, s2, true);
  }
}
