/** i915 execbuffer over whole runs: buffers move, user space rewrites them, submits relocate. The
    submit that skips (single relocations by their presumed offset, whole lists under NO_RELOC) is
    compared with one that relocates everything every time. */
module ExecBuffer {
  import opened Bits
  import opened Bytes
  import opened Relocation

  /** A buffer object with its relocation list. `presumed` has the `presumed_offset` of each
      relocation entry; `listed` is the `offset` field of its exec object. */
  datatype Object = Object(buf: seq<Byte>, sites: seq<Site>, presumed: seq<nat>, listed: nat)

  /** The kernel's current offset of every object, and the objects. */
  datatype Gpu = Gpu(addr: seq<nat>, objects: seq<Object>)

  datatype Step =
    | Move(object: nat, to: nat)
    | Emit(object: nat, buf: seq<Byte>, sites: seq<Site>, presumed: seq<nat>)
    | Presume(which: nat, offset: nat)  // user space fills in an `offset` field
    | Submit(list: seq<nat>, noReloc: bool)

  ghost predicate Shaped(g: Gpu) {
    && |g.addr| == |g.objects|
    && forall k :: 0 <= k < |g.objects| ==>
         |g.objects[k].presumed| == |g.objects[k].sites| && InBounds(g.objects[k].buf, g.objects[k].sites, g.addr)
  }

  /** Every buffer holds, at disjoint sites, the words for its presumed offsets. */
  ghost predicate Good(g: Gpu) {
    && Shaped(g)
    && forall k :: 0 <= k < |g.objects| ==> Ready(g.objects[k].buf, g.objects[k].sites, g.objects[k].presumed)
  }

  ghost predicate Names(g: Gpu, list: seq<nat>) {
    && (forall k :: k in list ==> k < |g.objects|)
    && (forall i, j :: 0 <= i < j < |list| ==> list[i] != list[j])
  }

  /** The contract of NO_RELOC: every target is in the list, and its `offset` field has the presumed
      offset of the entries that refer to it. */
  ghost predicate PresumedListed(g: Gpu, list: seq<nat>)
    requires Shaped(g) && Names(g, list)
  {
    forall k, i :: k in list && 0 <= i < |g.objects[k].sites| ==>
      var t := g.objects[k].sites[i].target;
      t in list && g.objects[k].presumed[i] == g.objects[t].listed
  }

  ghost predicate Possible(g: Gpu, step: Step) {
    match step
    case Move(k, _) => k < |g.objects|
    case Emit(k, buf, sites, presumed) => k < |g.objects| && |presumed| == |sites| && InBounds(buf, sites, g.addr)
    case Presume(k, _) => k < |g.objects|
    case Submit(list, _) => Names(g, list)
  }

  /** What user space owes: emitted buffers are ready, NO_RELOC is used under its contract. */
  ghost predicate Allowed(g: Gpu, step: Step)
    requires Shaped(g)
  {
    && Possible(g, step)
    && (step.Emit? ==> Ready(step.buf, step.sites, step.presumed))
    && (step.Submit? && step.noReloc ==> PresumedListed(g, step.list))
  }

  function Refresh(o: Object, addr: seq<nat>, here: nat, skip: bool): (r: Object)
    requires |o.presumed| == |o.sites| && InBounds(o.buf, o.sites, addr)
    ensures |r.buf| == |o.buf|
  {
    var buf := if skip then Skipping(o.buf, o.sites, o.presumed, addr, |o.sites|) else Full(o.buf, o.sites, addr, |o.sites|);
    Object(buf, o.sites, Current(o.sites, addr), here)
  }

  predicate Unmoved(g: Gpu, list: seq<nat>)
    requires |g.addr| == |g.objects| && forall k :: k in list ==> k < |g.objects|
  {
    forall k :: k in list ==> g.addr[k] == g.objects[k].listed
  }

  function After(g: Gpu, step: Step, skip: bool): (r: Gpu)
    requires Shaped(g) && Possible(g, step)
    ensures Shaped(r) && |r.objects| == |g.objects|
  {
    match step
    case Move(k, a) => g.(addr := g.addr[k := a])
    case Emit(k, buf, sites, presumed) => g.(objects := g.objects[k := Object(buf, sites, presumed, g.objects[k].listed)])
    case Presume(k, offset) => g.(objects := g.objects[k := g.objects[k].(listed := offset)])
    case Submit(list, noReloc) =>
      if skip && noReloc && Unmoved(g, list) then g
      else g.(objects := seq(|g.objects|, k requires 0 <= k < |g.objects| =>
        if k in list then Refresh(g.objects[k], g.addr, g.addr[k], skip) else g.objects[k]))
  }

  // ----- one step

  lemma RefreshAgrees(o: Object, addr: seq<nat>, here: nat)
    requires Ready(o.buf, o.sites, o.presumed) && InBounds(o.buf, o.sites, addr)
    ensures Refresh(o, addr, here, true) == Refresh(o, addr, here, false)
    ensures var r := Refresh(o, addr, here, false); Ready(r.buf, r.sites, r.presumed)
  {
    SkippingIsFull(o.buf, o.sites, o.presumed, addr);
    ReadyAgain(o.buf, o.sites, o.presumed, addr);
  }

  /** An object whose presumed offsets are all current is not changed by relocating it. */
  lemma RefreshIdle(o: Object, addr: seq<nat>)
    requires Ready(o.buf, o.sites, o.presumed) && InBounds(o.buf, o.sites, addr)
    requires forall i :: 0 <= i < |o.sites| ==> o.presumed[i] == addr[o.sites[i].target]
    ensures Refresh(o, addr, o.listed, false) == o
  {
    NothingToDo(o.buf, o.sites, o.presumed, addr, |o.sites|);
    assert Current(o.sites, addr) == o.presumed;
  }

  lemma SubmitAgrees(g: Gpu, list: seq<nat>, noReloc: bool)
    requires Good(g) && Allowed(g, Submit(list, noReloc))
    ensures After(g, Submit(list, noReloc), true) == After(g, Submit(list, noReloc), false)
    ensures Good(After(g, Submit(list, noReloc), false))
  {
    var fast, slow := After(g, Submit(list, noReloc), true), After(g, Submit(list, noReloc), false);
    forall k | 0 <= k < |g.objects|
      ensures fast.objects[k] == slow.objects[k]
      ensures Ready(slow.objects[k].buf, slow.objects[k].sites, slow.objects[k].presumed)
    {
      var o := g.objects[k];
      RefreshAgrees(o, g.addr, g.addr[k]);
      if noReloc && Unmoved(g, list) && k in list {
        RefreshIdle(o, g.addr);
      }
    }
    assert fast.objects == slow.objects;
  }

  lemma StepAgrees(g: Gpu, step: Step)
    requires Good(g) && Allowed(g, step)
    ensures After(g, step, true) == After(g, step, false)
    ensures Good(After(g, step, false))
  {
    if step.Submit? { SubmitAgrees(g, step.list, step.noReloc); }
  }

  /** What a submit achieves, however much it skips: every listed buffer holds the words for the
      current offsets of its targets, its presumed offsets and its `offset` field are current, and
      everything else is as before. */
  lemma SubmitMeaning(g: Gpu, list: seq<nat>, noReloc: bool, k: nat)
    requires Good(g) && Allowed(g, Submit(list, noReloc)) && k < |g.objects|
    ensures var now := After(g, Submit(list, noReloc), true);
            && now.addr == g.addr
            && (k !in list ==> now.objects[k] == g.objects[k])
            && (k in list ==>
                  var o := now.objects[k];
                  && o.sites == g.objects[k].sites && o.listed == g.addr[k]
                  && o.presumed == Current(o.sites, g.addr)
                  && (forall i :: 0 <= i < |o.sites| ==> Holds(o.buf, o.sites[i], g.addr[o.sites[i].target]))
                  && (forall p :: 0 <= p < |o.buf| && !Covered(o.sites, |o.sites|, p) ==> o.buf[p] == g.objects[k].buf[p]))
  {
    SubmitAgrees(g, list, noReloc);
    FullMeaning(g.objects[k].buf, g.objects[k].sites, g.addr);
  }

  /** The relocated words, as numbers. */
  lemma SubmittedWords(g: Gpu, list: seq<nat>, noReloc: bool, k: nat, i: nat)
    requires Good(g) && Allowed(g, Submit(list, noReloc)) && k < |g.objects| && k in list && i < |g.objects[k].sites|
    ensures var s := g.objects[k].sites[i];
            var now := After(g, Submit(list, noReloc), true).objects[k].buf;
            && |now| == |g.objects[k].buf|
            && (s.form.Sum? ==> ReadWord(now, s) == (g.addr[s.target] + s.form.delta) % Pow256(s.form.bytes))
            && forall b: nat :: Bit(ReadWord(now, s), b) <==> RelocatedBit(s.form, g.addr[s.target], b)
  {
    SubmitMeaning(g, list, noReloc, k);
    SubmitAgrees(g, list, noReloc);
    var s := g.objects[k].sites[i];
    HeldWord(After(g, Submit(list, noReloc), true).objects[k].buf, s, g.addr[s.target]);
  }

  /** The other steps change one thing each: where an object is, what user space put into it, or its
      `offset` field. */
  lemma OtherSteps(g: Gpu, step: Step, skip: bool, j: nat)
    requires Shaped(g) && Possible(g, step) && !step.Submit? && j < |g.objects|
    ensures var now := After(g, step, skip);
            match step
            case Move(k, to) => now.addr[j] == (if j == k then to else g.addr[j]) && now.objects == g.objects
            case Emit(k, buf, sites, presumed) =>
              && now.addr == g.addr && now.objects[j].listed == g.objects[j].listed
              && (j == k ==> now.objects[j].buf == buf && now.objects[j].sites == sites && now.objects[j].presumed == presumed)
              && (j != k ==> now.objects[j] == g.objects[j])
            case Presume(k, offset) =>
              && now.addr == g.addr && now.objects[j].listed == (if j == k then offset else g.objects[j].listed)
              && now.objects[j].buf == g.objects[j].buf && now.objects[j].sites == g.objects[j].sites
              && now.objects[j].presumed == g.objects[j].presumed
  {
  }

  // ----- runs

  ghost predicate Runs(g: Gpu, steps: seq<Step>, skip: bool)
    requires Shaped(g)
    decreases |steps|
  {
    steps == [] || (Allowed(g, steps[0]) && Runs(After(g, steps[0], skip), steps[1..], skip))
  }

  ghost function End(g: Gpu, steps: seq<Step>, skip: bool): (r: Gpu)
    requires Shaped(g) && Runs(g, steps, skip)
    ensures Shaped(r) && |r.objects| == |g.objects|
    decreases |steps|
  {
    if steps == [] then g else End(After(g, steps[0], skip), steps[1..], skip)
  }

  /** In every run of moves, rewrites and submits, the device that skips ends with the same bytes,
      presumed offsets and object offsets as one that relocates everything. */
  lemma {:induction false} SkippingIsInvisible(g: Gpu, steps: seq<Step>)
    requires Good(g) && Runs(g, steps, false)
    ensures Runs(g, steps, true) && End(g, steps, true) == End(g, steps, false)
    ensures Good(End(g, steps, false))
    decreases |steps|
  {
    if steps != [] {
      StepAgrees(g, steps[0]);
      SkippingIsInvisible(After(g, steps[0], false), steps[1..]);
    }
  }

  // ----- when NO_RELOC is safe

  /** Every presumed offset is the `offset` field of its target. */
  ghost predicate Listed(g: Gpu)
    requires Shaped(g)
  {
    forall k, i :: 0 <= k < |g.objects| && 0 <= i < |g.objects[k].sites| ==>
      g.objects[k].presumed[i] == g.objects[g.objects[k].sites[i].target].listed
  }

  /** A list that has an object exactly if it has every target of that object. */
  ghost predicate Closed(g: Gpu, list: seq<nat>)
    requires Shaped(g)
  {
    forall k, i :: 0 <= k < |g.objects| && 0 <= i < |g.objects[k].sites| ==>
      (k in list <==> g.objects[k].sites[i].target in list)
  }

  /** A list of all objects is closed. */
  lemma WholeListIsClosed(g: Gpu, list: seq<nat>)
    requires Shaped(g) && forall k: nat :: k < |g.objects| ==> k in list
    ensures Closed(g, list)
  {
  }

  /** A discipline that needs no look at the state: emit with the offsets the last submit returned,
      fill in an `offset` field only with what the entries for that object presume, submit closed lists. */
  ghost predicate Disciplined(g: Gpu, step: Step)
    requires Shaped(g)
  {
    && Possible(g, step)
    && (step.Emit? ==>
          && Ready(step.buf, step.sites, step.presumed)
          && forall i :: 0 <= i < |step.sites| ==> step.presumed[i] == g.objects[step.sites[i].target].listed)
    && (step.Presume? ==>
          forall k, i :: 0 <= k < |g.objects| && 0 <= i < |g.objects[k].sites| && g.objects[k].sites[i].target == step.which ==>
            g.objects[k].presumed[i] == step.offset)
    && (step.Submit? ==> Closed(g, step.list))
  }

  lemma DisciplineKept(g: Gpu, step: Step)
    requires Good(g) && Listed(g) && Disciplined(g, step)
    ensures Allowed(g, step) && Listed(After(g, step, false))
  {
  }

  ghost predicate DisciplinedRun(g: Gpu, steps: seq<Step>)
    requires Shaped(g)
    decreases |steps|
  {
    steps == [] || (Disciplined(g, steps[0]) && DisciplinedRun(After(g, steps[0], false), steps[1..]))
  }

  /** Under that discipline every submit may use NO_RELOC. */
  lemma {:induction false} ClosedListsAreSafe(g: Gpu, steps: seq<Step>)
    requires Good(g) && Listed(g) && DisciplinedRun(g, steps)
    ensures Runs(g, steps, false)
    decreases |steps|
  {
    if steps != [] {
      DisciplineKept(g, steps[0]);
      StepAgrees(g, steps[0]);
      ClosedListsAreSafe(After(g, steps[0], false), steps[1..]);
    }
  }

  // ----- the exact condition

  /** Every target of a listed buffer is in the list. */
  ghost predicate TargetsListed(objects: seq<Object>, list: seq<nat>) {
    forall k, i :: k in list && k < |objects| && 0 <= i < |objects[k].sites| ==> objects[k].sites[i].target in list
  }

  /** In the caller's own fields, each relocation entry presumes an offset that gives the word of the
      `offset` field of its target. */
  ghost predicate FieldsAgree(objects: seq<Object>, list: seq<nat>)
    requires forall k :: k in list ==> k < |objects| && |objects[k].presumed| == |objects[k].sites|
    requires TargetsListed(objects, list)
  {
    forall k, i :: k in list && 0 <= i < |objects[k].sites| ==>
      var s := objects[k].sites[i];
      s.form.Image(objects[k].presumed[i]) == s.form.Image(objects[s.target].listed)
  }

  /** The NO_RELOC submit leaves the bytes of full relocation in every listed buffer. */
  ghost predicate RightBytes(g: Gpu, list: seq<nat>)
    requires Shaped(g) && Names(g, list)
  {
    forall k :: k in list ==> SameBytesAt(g, list, k)
  }

  ghost predicate SameBytesAt(g: Gpu, list: seq<nat>, k: nat)
    requires Shaped(g) && Names(g, list) && k < |g.objects|
  {
    After(g, Submit(list, true), true).objects[k].buf == After(g, Submit(list, true), false).objects[k].buf
  }

  /** The same objects in another placement by the kernel. */
  ghost predicate Placement(g: Gpu, h: Gpu) {
    h.objects == g.objects && |h.addr| == |g.addr|
  }

  /** One placement: if something of the list moved, nothing goes wrong; if not, the bytes are right
      exactly when the caller's fields agree. */
  lemma NoRelocHere(g: Gpu, list: seq<nat>)
    requires Good(g) && Names(g, list) && TargetsListed(g.objects, list)
    ensures RightBytes(g, list) <==> !Unmoved(g, list) || FieldsAgree(g.objects, list)
  {
    if Unmoved(g, list) {
      forall k | k in list ensures SameBytesAt(g, list, k) <==> UpToDate(g.objects[k].sites, g.objects[k].presumed, g.addr) {
        LeftAlone(g, list, k);
      }
      UpToDateIsAgreement(g, list);
    } else {
      forall k | k in list ensures SameBytesAt(g, list, k) { RefreshAgrees(g.objects[k], g.addr, g.addr[k]); }
    }
  }

  lemma LeftAlone(g: Gpu, list: seq<nat>, k: nat)
    requires Good(g) && Names(g, list) && Unmoved(g, list) && k in list
    ensures SameBytesAt(g, list, k) <==> UpToDate(g.objects[k].sites, g.objects[k].presumed, g.addr)
  {
    LeavingAloneExact(g.objects[k].buf, g.objects[k].sites, g.objects[k].presumed, g.addr);
  }

  lemma UpToDateIsAgreement(g: Gpu, list: seq<nat>)
    requires Shaped(g) && Names(g, list) && TargetsListed(g.objects, list) && Unmoved(g, list)
    ensures (forall k :: k in list ==> UpToDate(g.objects[k].sites, g.objects[k].presumed, g.addr)) <==> FieldsAgree(g.objects, list)
  {
    forall k, i | k in list && 0 <= i < |g.objects[k].sites|
      ensures g.addr[g.objects[k].sites[i].target] == g.objects[g.objects[k].sites[i].target].listed
    {
    }
  }

  /** The placement in which nothing has moved since the `offset` fields were filled in. */
  function Unchanged(g: Gpu): (h: Gpu)
    ensures h.objects == g.objects && |h.addr| == |g.objects|
    ensures forall k :: 0 <= k < |g.objects| ==> h.addr[k] == g.objects[k].listed
  {
    g.(addr := seq(|g.objects|, k requires 0 <= k < |g.objects| => g.objects[k].listed))
  }

  /** A NO_RELOC submit leaves the right bytes wherever the kernel has the objects, exactly when the
      caller's relocation entries agree with the caller's `offset` fields. */
  lemma NoRelocExact(g: Gpu, list: seq<nat>)
    requires Good(g) && Names(g, list) && TargetsListed(g.objects, list)
    ensures (forall h :: Placement(g, h) ==> RightBytes(h, list)) <==> FieldsAgree(g.objects, list)
  {
    forall h | Placement(g, h) ensures RightBytes(h, list) <==> !Unmoved(h, list) || FieldsAgree(g.objects, list) {
      NoRelocHere(h, list);
    }
    assert Placement(g, Unchanged(g));
  }

  /** For the whole outcome, bytes and fields, the header's contract is what it takes, no more and
      no less: every target listed, with the presumed offset in its `offset` field. */
  lemma NoRelocContractExact(g: Gpu, list: seq<nat>)
    requires Good(g) && Names(g, list)
    ensures (forall h :: Placement(g, h) ==> After(h, Submit(list, true), true) == After(h, Submit(list, true), false))
       <==> PresumedListed(g, list)
  {
    if PresumedListed(g, list) {
      forall h | Placement(g, h) ensures After(h, Submit(list, true), true) == After(h, Submit(list, true), false) {
        SubmitAgrees(h, list, true);
      }
    } else {
      var k, i :| k in list && 0 <= i < |g.objects[k].sites| &&
        var t := g.objects[k].sites[i].target;
        !(t in list && g.objects[k].presumed[i] == g.objects[t].listed);
      var h := Disagreement(g, list, k, i);
      assert Placement(g, h);
    }
  }

  /** A placement in which an entry that breaks the contract is left with a stale presumed offset. */
  lemma Disagreement(g: Gpu, list: seq<nat>, k: nat, i: nat) returns (h: Gpu)
    requires Good(g) && Names(g, list) && k in list && i < |g.objects[k].sites|
    requires var t := g.objects[k].sites[i].target; t !in list || g.objects[k].presumed[i] != g.objects[t].listed
    ensures Placement(g, h) && After(h, Submit(list, true), true) != After(h, Submit(list, true), false)
  {
    var o := g.objects[k];
    var t := o.sites[i].target;
    h := Unchanged(g);
    if t !in list { h := h.(addr := h.addr[t := o.presumed[i] + 1]); }
    assert Unmoved(h, list);
    assert h.addr[t] != o.presumed[i];
    assert After(h, Submit(list, true), false).objects[k].presumed[i] == h.addr[t];
    assert After(h, Submit(list, true), true).objects[k].presumed[i] == o.presumed[i];
  }

  /** Entries `addr + delta` whose words are wide enough for the offsets that the caller uses. */
  ghost predicate WholeAddresses(g: Gpu, list: seq<nat>)
    requires Shaped(g) && Names(g, list)
  {
    forall k, i :: k in list && 0 <= i < |g.objects[k].sites| ==>
      var s := g.objects[k].sites[i];
      && s.form.Sum?
      && g.objects[k].presumed[i] < Pow256(s.form.bytes)
      && g.objects[s.target].listed < Pow256(s.form.bytes)
  }

  /** The header's contract makes the fields agree, and for words that hold whole addresses nothing
      less does. */
  lemma ContractIsAgreement(g: Gpu, list: seq<nat>)
    requires Shaped(g) && Names(g, list)
    ensures PresumedListed(g, list) ==> TargetsListed(g.objects, list) && FieldsAgree(g.objects, list)
    ensures WholeAddresses(g, list) ==>
              (PresumedListed(g, list) <==> TargetsListed(g.objects, list) && FieldsAgree(g.objects, list))
  {
    if WholeAddresses(g, list) && TargetsListed(g.objects, list) && FieldsAgree(g.objects, list) {
      forall k, i | k in list && 0 <= i < |g.objects[k].sites|
        ensures g.objects[k].presumed[i] == g.objects[g.objects[k].sites[i].target].listed
      {
        var s := g.objects[k].sites[i];
        SumImages(s.form, g.objects[k].presumed[i], g.objects[s.target].listed);
        SmallModulo(g.objects[k].presumed[i], Pow256(s.form.bytes));
        SmallModulo(g.objects[s.target].listed, Pow256(s.form.bytes));
      }
    }
  }

  /** Objects 1 and 2 both refer to object 0, which lies at 10. */
  function TwoUsers(): Gpu {
    var user := Object([10], [Site(0, 0, Sum(0, 1))], [10], 100);
    Gpu([10, 100, 100], [Object([], [], [], 10), user, user])
  }

  lemma UserReady(o: Object)
    requires o == Object([10], [Site(0, 0, Sum(0, 1))], [10], 100)
    ensures Ready(o.buf, o.sites, o.presumed)
  {
    assert LittleEndian(10, 1) == [10];
    assert Holds(o.buf, o.sites[0], 10);
  }

  lemma TwoUsersGood()
    ensures Good(TwoUsers()) && Listed(TwoUsers())
  {
    var g := TwoUsers();
    UserReady(g.objects[1]);
    assert g.objects[2] == g.objects[1];
    assert Ready(g.objects[0].buf, g.objects[0].sites, g.objects[0].presumed);
    assert |g.objects| == 3;
  }

  /** After the submit of objects 1 and 0 alone, object 2 still presumes 10 while object 0 is listed
      at 20. */
  lemma OneUserLeftOut(g2: Gpu)
    requires Shaped(TwoUsers()) && g2 == After(After(TwoUsers(), Move(0, 20), true), Submit([1, 0], false), true)
    ensures g2.addr == [20, 100, 100] && |g2.objects| == 3
    ensures g2.objects[2] == TwoUsers().objects[2] && g2.objects[0].listed == 20 && g2.objects[0].sites == []
  {
    var g1 := After(TwoUsers(), Move(0, 20), true);
    assert g1.objects == TwoUsers().objects && g1.addr == [20, 100, 100];
  }

  lemma StaleWord(o: Object, addr: seq<nat>)
    requires o == TwoUsers().objects[2] && addr == [20, 100, 100]
    ensures InBounds(o.buf, o.sites, addr) && Full(o.buf, o.sites, addr, 1) == [20]
    ensures o.sites[0].form.Image(10) != o.sites[0].form.Image(20)
  {
    assert LittleEndian(10, 1) == [10];
    assert LittleEndian(20, 1) == [20];
    assert Overwrite([10], 0, [20]) == [20];
    assert Full(o.buf, o.sites, addr, 0) == [10];
  }

  lemma TwoSteps(g: Gpu, s1: Step, s2: Step, skip: bool)
    requires Shaped(g) && Allowed(g, s1) && Allowed(After(g, s1, skip), s2)
    ensures Runs(g, [s1, s2], skip) && End(g, [s1, s2], skip) == After(After(g, s1, skip), s2, skip)
  {
    var steps := [s1, s2];
    assert steps[1..] == [s2] && steps[1..][1..] == [];
    var g1 := After(g, s1, skip);
    var g2 := After(g1, s2, skip);
    assert Runs(g2, [], skip) && End(g2, [], skip) == g2;
    assert Runs(g1, steps[1..], skip) && End(g1, steps[1..], skip) == g2;
  }

  lemma StaleSubmit(g: Gpu)
    requires Shaped(g) && g.addr == [20, 100, 100] && |g.objects| == 3
    requires g.objects[2] == TwoUsers().objects[2] && g.objects[0].listed == 20
    requires g.objects[0].sites == []
    ensures Names(g, [2, 0]) && Unmoved(g, [2, 0]) && TargetsListed(g.objects, [2, 0]) && !FieldsAgree(g.objects, [2, 0])
    ensures After(g, Submit([2, 0], true), true).objects[2].buf != After(g, Submit([2, 0], true), false).objects[2].buf
  {
    StaleWord(g.objects[2], g.addr);
    assert After(g, Submit([2, 0], true), false).objects[2].buf == [20];
  }

  /** The contract is not kept by the kernel alone. Object 0 moves, a submit that leaves object 2
      out brings the `offset` field of object 0 up to date, and a NO_RELOC submit of object 2 then
      finds nothing moved and leaves a stale word behind. */
  lemma LeftOutObjectGoesStale()
    ensures Good(TwoUsers()) && Listed(TwoUsers()) && Runs(TwoUsers(), [Move(0, 20), Submit([1, 0], false)], true)
    ensures var now := End(TwoUsers(), [Move(0, 20), Submit([1, 0], false)], true);
            && Names(now, [2, 0]) && Unmoved(now, [2, 0])
            && TargetsListed(now.objects, [2, 0]) && !FieldsAgree(now.objects, [2, 0])
            && After(now, Submit([2, 0], true), true).objects[2].buf != After(now, Submit([2, 0], true), false).objects[2].buf
  {
    TwoUsersGood();
    var g := TwoUsers();
    TwoSteps(g, Move(0, 20), Submit([1, 0], false), true);
    var now := After(After(g, Move(0, 20), true), Submit([1, 0], false), true);
    OneUserLeftOut(now);
    StaleSubmit(now);
  }

  // ----- the device, changed in place

  class Device {
    var addr: seq<nat>
    var objects: seq<Object>

    ghost function View(): Gpu
      reads this
    {
      Gpu(addr, objects)
    }

    constructor (g: Gpu)
      ensures View() == g
    {
      addr, objects := g.addr, g.objects;
    }

    /** The execbuffer ioctl with its two shortcuts. */
    method Execute(list: seq<nat>, noReloc: bool)
      requires Shaped(View()) && Names(View(), list)
      modifies this
      ensures View() == After(old(View()), Submit(list, noReloc), true)
    {
      if noReloc && (forall k :: k in list ==> addr[k] == objects[k].listed) {
        return;
      }
      ghost var before := View();
      for n := 0 to |list|
        invariant addr == before.addr && |objects| == |before.objects|
        invariant forall k :: 0 <= k < |objects| ==>
          objects[k] == if k in list[..n] then Refresh(before.objects[k], addr, addr[k], true) else before.objects[k]
      {
        var k := list[n];
        assert k in list && k !in list[..n] && list[..n + 1] == list[..n] + [k];
        var o := objects[k];
        var buf, presumed := RelocateCopy(o.buf, o.sites, o.presumed, addr);
        objects := objects[k := Object(buf, o.sites, presumed, addr[k])];
      }
      assert list[..|list|] == list;
      assert objects == After(before, Submit(list, noReloc), true).objects;
    }
  }
}
