/** Whole-run consequences of the I/O request protocol: ownership, counting, draining, and why a
    running vCPU is not enough to issue the next request. */
module IoRequestRuns {
  import opened Options
  import opened IoRequests

  /** Only the owner of a slot writes its memory, and its state only moves round
      FREE, PENDING, PROCESSING, COMPLETE, FREE. The one thing done by the other side is the HSM's
      notification, which writes nothing. The request itself changes only when it is filled in, and its
      value when the client handles it. */
  lemma OnlyOwnerWrites(st: System, step: Step, i: nat)
    requires Enabled(st, step) && i < |st.slots|
    ensures Actor(step, st.slots[step.slot].mem.polling) != Owner(st.slots[step.slot].mem.processed) <==>
            step.Inform? && !st.slots[step.slot].mem.polling
    ensures var before, after := st.slots[i].mem, Apply(st, step).slots[i].mem;
            && (after != before ==> i == step.slot && Actor(step, before.polling) == Owner(before.processed))
            && (after.processed == before.processed || after.processed == NextState(before.processed))
            && (after.access != before.access || after.polling != before.polling ==> step.Fill?)
            && (after.value != before.value ==> step.Fill? || step.Handle?)
  {
  }

  // ----- counting requests

  predicate Concerns(e: Event, vcpu: nat) {
    e.seen.hv.vcpu == Some(vcpu)
  }

  /** Requests of a vCPU that became PENDING. */
  function Issued(log: seq<Event>, vcpu: nat): nat {
    if log == [] then 0
    else
      var e := log[|log| - 1];
      Issued(log[..|log| - 1], vcpu) + if e.step.Publish? && Concerns(e, vcpu) then 1 else 0
  }

  /** Requests of a vCPU whose slot became FREE again. */
  function Freed(log: seq<Event>, vcpu: nat): nat {
    if log == [] then 0
    else
      var e := log[|log| - 1];
      Freed(log[..|log| - 1], vcpu) + if e.step.Release? && Concerns(e, vcpu) then 1 else 0
  }

  predicate Carries(s: Slot, vcpu: nat) {
    s.mem.processed != Free && s.hv.vcpu == Some(vcpu)
  }

  predicate InFlight(slots: seq<Slot>, vcpu: nat) {
    exists i :: 0 <= i < |slots| && Carries(slots[i], vcpu)
  }

  lemma InFlightAfterUpdate(slots: seq<Slot>, k: nat, s: Slot, vcpu: nat)
    requires k < |slots|
    ensures InFlight(slots[k := s], vcpu) <==> Carries(s, vcpu) || exists i :: 0 <= i < |slots| && i != k && Carries(slots[i], vcpu)
  {
    var next := slots[k := s];
    if InFlight(next, vcpu) {
      var i :| 0 <= i < |next| && Carries(next[i], vcpu);
      assert i != k ==> Carries(slots[i], vcpu);
    }
    if Carries(s, vcpu) { assert Carries(next[k], vcpu); }
    if i :| 0 <= i < |slots| && i != k && Carries(slots[i], vcpu) { assert Carries(next[i], vcpu); }
  }

  ghost predicate Counted(st: System, vcpu: nat) {
    Issued(st.log, vcpu) == Freed(st.log, vcpu) + if InFlight(st.slots, vcpu) then 1 else 0
  }

  lemma CountedStep(st: System, step: Step, vcpu: nat)
    requires Inv(st) && Enabled(st, step) && Counted(st, vcpu)
    ensures Counted(Apply(st, step), vcpu)
  {
    var st' := Apply(st, step);
    var k, s := step.slot, st.slots[step.slot];
    assert st'.log[..|st'.log| - 1] == st.log;
    InFlightAfterUpdate(st.slots, k, Effect(s, step), vcpu);
    InFlightAfterUpdate(st.slots, k, s, vcpu);
    assert st.slots[k := s] == st.slots;
    assert SlotInv(st, k);
    StepAdvances(st, step);
    if s.hv.vcpu == Some(vcpu) {
      forall i | 0 <= i < |st.slots| && i != k ensures !Carries(st.slots[i], vcpu) {
        assert if i < k then st.slots[i].hv.vcpu != st.slots[k].hv.vcpu else st.slots[k].hv.vcpu != st.slots[i].hv.vcpu;
      }
    }
  }

  lemma {:induction false} CountedAlways(st: System, steps: seq<Step>, vcpu: nat)
    requires Inv(st) && Counted(st, vcpu) && Runs(st, steps)
    ensures Counted(After(st, steps), vcpu)
  {
    if steps != [] {
      var before := steps[..|steps| - 1];
      CountedAlways(st, before, vcpu);
      InvAlways(st, before);
      CountedStep(After(st, before), steps[|steps| - 1], vcpu);
    }
  }

  /** In every reachable state each vCPU has issued as many requests as were freed, plus one
      exactly while a request of its own is in flight. */
  lemma IssuedIsFreedPlusOne(st: System, steps: seq<Step>, vcpu: nat)
    requires Initial(st) && Runs(st, steps)
    ensures var now := After(st, steps);
            Issued(now.log, vcpu) == Freed(now.log, vcpu) + if InFlight(now.slots, vcpu) then 1 else 0
  {
    InitialInv(st);
    forall i | 0 <= i < |st.slots| ensures !Carries(st.slots[i], vcpu) {
      assert st.slots[i] in st.slots;
    }
    CountedAlways(st, steps, vcpu);
  }

  // ----- draining

  /** Steps a slot still needs to be idle again. */
  function Work(s: Slot): nat
    ensures Work(s) <= 10
  {
    if Stage(s) == 0 then 0 else TRIP - Stage(s)
  }

  function Rank(slots: seq<Slot>): nat {
    if slots == [] then 0 else Work(slots[0]) + Rank(slots[1..])
  }

  lemma {:induction false} RankUpdate(slots: seq<Slot>, k: nat, s: Slot)
    requires k < |slots|
    ensures Rank(slots[k := s]) == Rank(slots) - Work(slots[k]) + Work(s)
  {
    if k == 0 {
      assert slots[0 := s][1..] == slots[1..];
    } else {
      assert slots[k := s][1..] == slots[1..][k - 1 := s];
      RankUpdate(slots[1..], k - 1, s);
    }
  }

  lemma {:induction false} RankBound(slots: seq<Slot>)
    ensures Rank(slots) <= 10 * |slots|
    ensures Rank(slots) == 0 <==> forall i :: 0 <= i < |slots| ==> Stage(slots[i]) == 0
  {
    if slots != [] {
      RankBound(slots[1..]);
      assert forall i :: 1 <= i < |slots| ==> slots[i] == slots[1..][i - 1];
      assert forall i :: 0 <= i < |slots| - 1 ==> slots[1..][i] == slots[i + 1];
    }
  }

  /** Every step other than a new request lowers the rank by one. */
  lemma StepLowersRank(st: System, step: Step)
    requires Enabled(st, step) && Coherent(st.slots[step.slot])
    ensures Rank(Apply(st, step).slots) == if step.Fill? then Rank(st.slots) + 10 else Rank(st.slots) - 1
  {
    StepAdvances(st, step);
    RankUpdate(st.slots, step.slot, Effect(st.slots[step.slot], step));
  }

  function Fills(steps: seq<Step>): nat {
    if steps == [] then 0 else Fills(steps[..|steps| - 1]) + if steps[|steps| - 1].Fill? then 1 else 0
  }

  /** The length of a run is fixed by the requests begun and the work left over, so a run that
      begins no request is at most as long as the rank it starts from. */
  lemma {:induction false} RunLength(st: System, steps: seq<Step>)
    requires Inv(st) && Runs(st, steps)
    ensures |steps| + Rank(After(st, steps).slots) == Rank(st.slots) + TRIP * Fills(steps)
  {
    if steps != [] {
      var before := steps[..|steps| - 1];
      RunLength(st, before);
      InvAlways(st, before);
      var last := steps[|steps| - 1];
      assert SlotInv(After(st, before), last.slot);
      StepLowersRank(After(st, before), last);
    }
  }

  /** The step that a busy slot is waiting for. */
  function Awaited(slot: nat, s: Slot): Step
    requires Coherent(s) && Stage(s) > 0
  {
    match Stage(s)
    case 1 => Pause(slot)
    case 2 => Publish(slot)
    case 3 => Claim(slot)
    case 4 => Assign(slot, 0)
    case 5 => Handle(slot, s.hsm.client.value, s.mem.value)
    case 6 => Finish(slot)
    case 7 => Inform(slot)
    case 8 => Resume(slot)
    case 9 => Post(slot)
    case _ => Release(slot)
  }

  /** Nothing is ever stuck: while some slot is busy, its awaited step can be taken. */
  lemma BusySlotCanMove(st: System, i: nat)
    requires i < |st.slots| && Coherent(st.slots[i]) && Stage(st.slots[i]) > 0
    ensures Enabled(st, Awaited(i, st.slots[i])) && !Awaited(i, st.slots[i]).Fill?
  {
  }

  /** A run that can only go on by beginning a request has drained every slot. */
  lemma Drains(st: System, steps: seq<Step>)
    requires Initial(st) && Runs(st, steps)
    requires forall step :: Enabled(After(st, steps), step) ==> step.Fill?
    ensures forall s :: s in After(st, steps).slots ==> Idle(s)
  {
    InitialInv(st);
    InvAlways(st, steps);
    var now := After(st, steps);
    forall s | s in now.slots ensures Idle(s) {
      var i: nat :| i < |now.slots| && now.slots[i] == s;
      assert SlotInv(now, i);
      if Stage(s) > 0 {
        BusySlotCanMove(now, i);
        assert false;
      }
    }
  }

  lemma {:induction false} FillsAppend(steps: seq<Step>, step: Step)
    ensures Fills(steps + [step]) == Fills(steps) + if step.Fill? then 1 else 0
  {
    assert (steps + [step])[..|steps|] == steps;
  }

  lemma Idles(st: System)
    requires Inv(st) && Rank(st.slots) == 0
    ensures forall s :: s in st.slots ==> Idle(s)
  {
    RankBound(st.slots);
    forall s | s in st.slots ensures Idle(s) {
      var i: nat :| i < |st.slots| && st.slots[i] == s;
      assert SlotInv(st, i);
    }
  }

  /** While there is work left, some step other than a new request can be taken. */
  lemma SomeStep(st: System) returns (step: Step)
    requires Inv(st) && Rank(st.slots) > 0
    ensures Enabled(st, step) && !step.Fill?
  {
    RankBound(st.slots);
    var i: nat :| i < |st.slots| && Stage(st.slots[i]) > 0;
    assert SlotInv(st, i);
    BusySlotCanMove(st, i);
    step := Awaited(i, st.slots[i]);
  }

  /** Outstanding requests drain. A run without a new request, from any state that keeps the
      invariant, has at most ten steps for each slot, and can be continued without a new request
      until every slot is FREE and idle, whatever steps have been taken so far. */
  lemma {:induction false} DrainsWithin(now: System, more: seq<Step>) returns (whole: seq<Step>)
    requires Inv(now) && Runs(now, more) && Fills(more) == 0
    ensures |more| <= |whole| == Rank(now.slots) <= 10 * |now.slots| && whole[..|more|] == more
    ensures Runs(now, whole) && Fills(whole) == 0
    ensures forall s :: s in After(now, whole).slots ==> Idle(s)
    decreases Rank(After(now, more).slots)
  {
    RunLength(now, more);
    InvAlways(now, more);
    RankBound(now.slots);
    var st := After(now, more);
    if Rank(st.slots) == 0 {
      Idles(st);
      whole := more;
    } else {
      var step := SomeStep(st);
      Extend(now, more, step);
      FillsAppend(more, step);
      RunLength(now, more + [step]);
      whole := DrainsWithin(now, more + [step]);
    }
  }

  /** In particular from every reachable state. */
  lemma ReachableDrains(st: System, steps: seq<Step>, more: seq<Step>) returns (whole: seq<Step>)
    requires Initial(st) && Runs(st, steps) && Runs(After(st, steps), more) && Fills(more) == 0
    ensures var now := After(st, steps);
            && |more| <= |whole| <= 10 * |st.slots| && whole[..|more|] == more
            && Runs(now, whole) && Fills(whole) == 0
            && forall s :: s in After(now, whole).slots ==> Idle(s)
  {
    InitialInv(st);
    InvAlways(st, steps);
    whole := DrainsWithin(After(st, steps), more);
  }

  // ----- the guard of a new request

  ghost predicate Serves(st: System, vcpu: nat, stage: nat) {
    |st.slots| > 0 && Coherent(st.slots[0]) && Stage(st.slots[0]) == stage && st.slots[0].hv.vcpu == Some(vcpu)
  }

  lemma Begin(st: System, vcpu: nat, access: Access) returns (step: Step)
    requires Initial(st) && |st.slots| > 0
    ensures Enabled(st, step) && Serves(Apply(st, step), vcpu, 1)
  {
    assert st.slots[0] in st.slots;
    forall t | 0 <= t < |st.slots| ensures st.slots[t].hv.vcpu != Some(vcpu) { assert st.slots[t] in st.slots; }
    step := Fill(0, vcpu, access, 0, false);
  }

  lemma Continue(st: System, vcpu: nat, stage: nat) returns (step: Step)
    requires 1 <= stage < 10 && Serves(st, vcpu, stage)
    ensures Enabled(st, step) && Serves(Apply(st, step), vcpu, stage + 1)
  {
    BusySlotCanMove(st, 0);
    step := Awaited(0, st.slots[0]);
    StepAdvances(st, step);
  }

  /** From an initial state slot 0 can be driven alone to any stage of its trip. */
  lemma {:induction false} DriveTo(st: System, vcpu: nat, access: Access, stage: nat) returns (steps: seq<Step>)
    requires Initial(st) && |st.slots| > 0 && 1 <= stage <= 10
    ensures Runs(st, steps) && Serves(After(st, steps), vcpu, stage)
    decreases stage
  {
    var step;
    if stage == 1 {
      steps := [];
      step := Begin(st, vcpu, access);
    } else {
      steps := DriveTo(st, vcpu, access, stage - 1);
      step := Continue(After(st, steps), vcpu, stage - 1);
    }
    Extend(st, steps, step);
    steps := steps + [step];
  }

  predicate Running(slots: seq<Slot>, vcpu: nat) {
    forall i :: 0 <= i < |slots| ==> !(slots[i].hv.vcpu == Some(vcpu) && slots[i].hv.paused)
  }

  /** A vCPU can run while its request is still in COMPLETE, so that a guard on running alone would
      let it issue a second request before the first is freed. */
  lemma RunningIsNotEnough(st: System, vcpu: nat, access: Access) returns (steps: seq<Step>)
    requires Initial(st) && |st.slots| > 0
    ensures Runs(st, steps)
    ensures Running(After(st, steps).slots, vcpu) && InFlight(After(st, steps).slots, vcpu)
    ensures forall s :: s in After(st, steps).slots && s.hv.vcpu == Some(vcpu) ==> !s.hv.paused
    ensures Issued(After(st, steps).log, vcpu) == Freed(After(st, steps).log, vcpu) + 1
  {
    steps := DriveTo(st, vcpu, access, 9);
    InitialInv(st);
    InvAlways(st, steps);
    var slots := After(st, steps).slots;
    forall i | 0 <= i < |slots| ensures !(slots[i].hv.vcpu == Some(vcpu) && slots[i].hv.paused) {
      if i > 0 { assert slots[0].hv.vcpu == None || slots[0].hv.vcpu != slots[i].hv.vcpu; }
    }
    assert Carries(slots[0], vcpu);
    IssuedIsFreedPlusOne(st, steps, vcpu);
  }
}
