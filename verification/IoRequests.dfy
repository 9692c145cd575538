/** The ACRN I/O request protocol. Request slots are shared memory between the hypervisor, the HSM
    and its clients; each agent also keeps a record of its own. One step is one action of the
    lifecycle in `acrn.h`, steps of different slots interleave freely, and the log remembers what
    each agent saw in the slot when it acted. */
module IoRequests {
  import opened Options

  /** `ACRN_IOREQ_STATE_*`, in the order of their values 0 to 3 */
  datatype State = Pending | Complete | Processing | Free

  datatype Direction = Read | Write

  datatype Access =
    | PortIo(direction: Direction, address: nat, size: nat)
    | Mmio(direction: Direction, address: nat, size: nat)
    | PciConfig(direction: Direction, size: nat, bus: nat, dev: nat, func: nat, reg: nat)

  /** The fields of `struct acrn_io_request`. */
  datatype Memory = Memory(processed: State, access: Access, value: nat, polling: bool)

  /** What the hypervisor knows of a slot: the vCPU it serves, whether that vCPU is paused, whether
      the completion has been learned, whether post handling is done. */
  datatype Hypervisor = Hypervisor(vcpu: Option<nat>, paused: bool, informed: bool, posted: bool)

  /** What the HSM knows of a slot: the client it gave the request to and whether that is done. */
  datatype Hsm = Hsm(client: Option<nat>, handled: bool)

  datatype Slot = Slot(mem: Memory, hv: Hypervisor, hsm: Hsm)

  datatype Step =
    | Fill(slot: nat, vcpu: nat, access: Access, value: nat, polling: bool)
    | Pause(slot: nat)
    | Publish(slot: nat)                             // (a)
    | Claim(slot: nat)                               // (b)
    | Assign(slot: nat, client: nat)                 // (c)
    | Handle(slot: nat, client: nat, result: nat)    // (d)
    | Finish(slot: nat)
    | Inform(slot: nat)
    | Resume(slot: nat)                              // (e)
    | Post(slot: nat)                                // (f)
    | Release(slot: nat)

  /** A step and the slot as it stood when the step was taken. */
  datatype Event = Event(step: Step, seen: Slot)

  datatype System = System(slots: seq<Slot>, log: seq<Event>)

  datatype Side = HypervisorSide | ServiceSide

  /** Requests in COMPLETE or FREE are owned by the hypervisor, the others by the HSM and clients. */
  function Owner(s: State): Side {
    if s == Complete || s == Free then HypervisorSide else ServiceSide
  }

  /** Who takes a step. The hypervisor learns of the completion by polling if the request asks for
      that, and otherwise by the HSM's notification. */
  function Actor(step: Step, polling: bool): Side {
    match step
    case Claim(_) => ServiceSide
    case Assign(_, _) => ServiceSide
    case Handle(_, _, _) => ServiceSide
    case Finish(_) => ServiceSide
    case Inform(_) => if polling then HypervisorSide else ServiceSide
    case _ => HypervisorSide
  }

  function NextState(s: State): State {
    match s
    case Free => Pending
    case Pending => Processing
    case Processing => Complete
    case Complete => Free
  }

  const NOBODY := Hypervisor(None, false, false, false)
  const UNASSIGNED := Hsm(None, false)

  predicate Idle(s: Slot) {
    s.mem.processed == Free && s.hv == NOBODY && s.hsm == UNASSIGNED
  }

  /** A vCPU has a request under way until its slot is FREE again: the guard of a new request is
      not that the vCPU runs, since it already runs again from (e) on. */
  predicate Outstanding(slots: seq<Slot>, vcpu: nat) {
    exists t :: 0 <= t < |slots| && slots[t].hv.vcpu == Some(vcpu)
  }

  predicate Enabled(st: System, step: Step) {
    && step.slot < |st.slots|
    && var s := st.slots[step.slot];
    match step
    case Fill(_, v, _, _, _) => s.mem.processed == Free && s.hv.vcpu == None && !Outstanding(st.slots, v)
    case Pause(_) => s.mem.processed == Free && s.hv.vcpu.Some? && !s.hv.paused
    case Publish(_) => s.mem.processed == Free && s.hv.paused
    case Claim(_) => s.mem.processed == Pending
    case Assign(_, _) => s.mem.processed == Processing && s.hsm.client == None
    case Handle(_, c, r) =>
      && s.mem.processed == Processing && s.hsm.client == Some(c) && !s.hsm.handled
      && (s.mem.access.direction == Write ==> r == s.mem.value)
    case Finish(_) => s.mem.processed == Processing && s.hsm.handled
    case Inform(_) => s.mem.processed == Complete && !s.hv.informed
    case Resume(_) => s.mem.processed == Complete && s.hv.informed && s.hv.paused
    case Post(_) => s.mem.processed == Complete && s.hv.informed && !s.hv.paused && !s.hv.posted
    case Release(_) => s.mem.processed == Complete && s.hv.posted
  }

  function Effect(s: Slot, step: Step): Slot {
    match step
    case Fill(_, v, a, x, p) => s.(mem := Memory(s.mem.processed, a, x, p), hv := s.hv.(vcpu := Some(v)))
    case Pause(_) => s.(hv := s.hv.(paused := true))
    case Publish(_) => s.(mem := s.mem.(processed := Pending))
    case Claim(_) => s.(mem := s.mem.(processed := Processing))
    case Assign(_, c) => s.(hsm := s.hsm.(client := Some(c)))
    case Handle(_, _, r) => s.(mem := s.mem.(value := r), hsm := s.hsm.(handled := true))
    case Finish(_) => s.(mem := s.mem.(processed := Complete), hsm := UNASSIGNED)
    case Inform(_) => s.(hv := s.hv.(informed := true))
    case Resume(_) => s.(hv := s.hv.(paused := false))
    case Post(_) => s.(hv := s.hv.(posted := true))
    case Release(_) => s.(mem := s.mem.(processed := Free), hv := NOBODY)
  }

  function Apply(st: System, step: Step): System
    requires step.slot < |st.slots|
  {
    var s := st.slots[step.slot];
    System(st.slots[step.slot := Effect(s, step)], st.log + [Event(step, s)])
  }

  // ----- runs

  ghost predicate Initial(st: System) {
    st.log == [] && forall s :: s in st.slots ==> Idle(s)
  }

  ghost predicate Runs(st: System, steps: seq<Step>)
    decreases |steps|, 0
  {
    steps == [] ||
    (Runs(st, steps[..|steps| - 1]) && Enabled(After(st, steps[..|steps| - 1]), steps[|steps| - 1]))
  }

  ghost function After(st: System, steps: seq<Step>): (r: System)
    requires Runs(st, steps)
    ensures |r.slots| == |st.slots|
    decreases |steps|, 1
  {
    if steps == [] then st else Apply(After(st, steps[..|steps| - 1]), steps[|steps| - 1])
  }

  lemma Extend(st: System, steps: seq<Step>, step: Step)
    requires Runs(st, steps) && Enabled(After(st, steps), step)
    ensures Runs(st, steps + [step]) && After(st, steps + [step]) == Apply(After(st, steps), step)
  {
    assert (steps + [step])[..|steps|] == steps;
  }

  lemma ExtendTwice(st: System, steps: seq<Step>, s1: Step, s2: Step)
    requires Runs(st, steps) && Enabled(After(st, steps), s1) && Enabled(Apply(After(st, steps), s1), s2)
    ensures Runs(st, steps + [s1] + [s2]) && After(st, steps + [s1] + [s2]) == Apply(Apply(After(st, steps), s1), s2)
  {
    Extend(st, steps, s1);
    Extend(st, steps + [s1], s2);
  }

  // ----- one trip of a slot: eleven events in strict order

  const TRIP: nat := 11

  function Position(step: Step): nat {
    match step
    case Fill(_, _, _, _, _) => 0
    case Pause(_) => 1
    case Publish(_) => 2
    case Claim(_) => 3
    case Assign(_, _) => 4
    case Handle(_, _, _) => 5
    case Finish(_) => 6
    case Inform(_) => 7
    case Resume(_) => 8
    case Post(_) => 9
    case Release(_) => 10
  }

  /** The state that the agent of event i finds. */
  function StateAt(i: nat): State {
    if i <= 2 then Free else if i == 3 then Pending else if i <= 6 then Processing else Complete
  }

  /** The beginning of one trip: the actions in order, each in its state, every agent seeing the
      request that was filled in at the start, the vCPU paused from before (a) up to (e), the
      assigned client handling the request, and everyone after that seeing the result that this
      client left. */
  ghost predicate Trip(t: seq<Event>) {
    && |t| <= TRIP
    && (forall i :: 0 <= i < |t| ==> Position(t[i].step) == i && t[i].seen.mem.processed == StateAt(i))
    && (forall i :: 0 <= i < |t| ==> (t[i].seen.hv.paused <==> 2 <= i <= 8))
    && (forall i :: 1 <= i < |t| ==>
          && t[i].seen.mem.access == t[0].step.access && t[i].seen.mem.polling == t[0].step.polling
          && t[i].seen.hv.vcpu == Some(t[0].step.vcpu))
    && (forall i :: 1 <= i < |t| && i <= 5 ==> t[i].seen.mem.value == t[0].step.value)
    && (5 < |t| ==> t[5].step.client == t[4].step.client)
    && (5 < |t| && t[0].step.access.direction == Write ==> t[5].step.result == t[0].step.value)
    && (forall i :: 6 <= i < |t| ==> t[i].seen.mem.value == t[5].step.result)
  }

  /** Whole trips one after the other, and the beginning of a last one. */
  ghost predicate History(h: seq<Event>) {
    if |h| < TRIP then Trip(h) else Trip(h[..TRIP]) && History(h[TRIP..])
  }

  /** The events of one slot. */
  function On(log: seq<Event>, slot: nat): seq<Event> {
    if log == [] then []
    else
      var e := log[|log| - 1];
      On(log[..|log| - 1], slot) + (if e.step.slot == slot then [e] else [])
  }

  // ----- the invariant

  /** How far round its trip a slot is, read off the flags. */
  function Stage(s: Slot): nat {
    match s.mem.processed
    case Free => if s.hv.vcpu == None then 0 else if !s.hv.paused then 1 else 2
    case Pending => 3
    case Processing => if s.hsm.client == None then 4 else if !s.hsm.handled then 5 else 6
    case Complete => if !s.hv.informed then 7 else if s.hv.paused then 8 else if !s.hv.posted then 9 else 10
  }

  predicate Coherent(s: Slot) {
    var k := Stage(s);
    && (s.hv.vcpu.Some? <==> 1 <= k)
    && (s.hv.paused <==> 2 <= k <= 8)
    && (s.hv.informed <==> 8 <= k)
    && (s.hv.posted <==> k == 10)
    && (s.hsm.client.Some? <==> 5 <= k <= 6)
    && (s.hsm.handled <==> k == 6)
  }

  function Current(h: seq<Event>): seq<Event> {
    if |h| < TRIP then h else Current(h[TRIP..])
  }

  /** The slot holds what its unfinished trip put there. */
  ghost predicate Agrees(s: Slot, t: seq<Event>) {
    && Stage(s) == |t|
    && (0 < |t| ==> t[0].step.Fill?)
    && (0 < |t| ==> s.mem.access == t[0].step.access && s.mem.polling == t[0].step.polling && s.hv.vcpu == Some(t[0].step.vcpu))
    && (0 < |t| <= 5 ==> s.mem.value == t[0].step.value)
    && (|t| == 5 ==> t[4].step.Assign? && s.hsm.client == Some(t[4].step.client))
    && (5 < |t| ==> t[5].step.Handle? && s.mem.value == t[5].step.result)
  }

  ghost predicate SlotInv(st: System, slot: nat)
    requires slot < |st.slots|
  {
    && Coherent(st.slots[slot])
    && History(On(st.log, slot))
    && Agrees(st.slots[slot], Current(On(st.log, slot)))
  }

  ghost predicate OneSlotEach(slots: seq<Slot>) {
    forall i, j :: 0 <= i < j < |slots| ==> slots[i].hv.vcpu == None || slots[i].hv.vcpu != slots[j].hv.vcpu
  }

  ghost predicate Inv(st: System) {
    && (forall i: nat :: i < |st.slots| ==> SlotInv(st, i))
    && OneSlotEach(st.slots)
  }

  /** An enabled step is the next one of the slot's trip and moves it on by one. */
  lemma StepAdvances(st: System, step: Step)
    requires Enabled(st, step) && Coherent(st.slots[step.slot])
    ensures Stage(st.slots[step.slot]) == Position(step)
    ensures var s' := Effect(st.slots[step.slot], step);
            Coherent(s') && Stage(s') == (Position(step) + 1) % TRIP
  {
  }

  /** Every step that the lifecycle allows can be taken: whatever is filled in as long as no slot
      carries the vCPU, and whatever the assigned client returns, except that a write leaves the value
      that was filled in. */
  lemma EnabledExact(st: System, step: Step)
    requires step.slot < |st.slots| && Coherent(st.slots[step.slot])
    ensures var s := st.slots[step.slot];
            Enabled(st, step) <==>
            && Stage(s) == Position(step)
            && (step.Fill? ==> forall t :: 0 <= t < |st.slots| ==> st.slots[t].hv.vcpu != Some(step.vcpu))
            && (step.Handle? ==> Some(step.client) == s.hsm.client && (s.mem.access.direction == Read || step.result == s.mem.value))
  {
  }

  /** In particular a read can return anything at all, and that is what the slot then holds. */
  lemma AnyReadResult(st: System, slot: nat, result: nat)
    requires slot < |st.slots| && Coherent(st.slots[slot]) && Stage(st.slots[slot]) == 5
    requires st.slots[slot].mem.access.direction == Read
    ensures var step := Handle(slot, st.slots[slot].hsm.client.value, result);
            Enabled(st, step) && Apply(st, step).slots[slot].mem == st.slots[slot].mem.(value := result)
  {
    EnabledExact(st, Handle(slot, st.slots[slot].hsm.client.value, result));
  }

  lemma {:induction false} CurrentTrip(h: seq<Event>)
    requires History(h)
    ensures Trip(Current(h)) && |Current(h)| < TRIP
  {
    if |h| >= TRIP { CurrentTrip(h[TRIP..]); }
  }

  /** Appending the next event of the current trip keeps the history well formed. */
  lemma {:induction false} AppendEvent(h: seq<Event>, e: Event)
    requires History(h) && Trip(Current(h) + [e])
    ensures History(h + [e])
    ensures Current(h + [e]) == if |Current(h)| + 1 == TRIP then [] else Current(h) + [e]
  {
    if |h| >= TRIP {
      assert (h + [e])[..TRIP] == h[..TRIP] && (h + [e])[TRIP..] == h[TRIP..] + [e];
      AppendEvent(h[TRIP..], e);
    } else if |h| + 1 == TRIP {
      assert (h + [e])[..TRIP] == h + [e] && (h + [e])[TRIP..] == [];
    }
  }

  lemma EventContinuesTrip(s: Slot, step: Step, t: seq<Event>, st: System)
    requires Enabled(st, step) && s == st.slots[step.slot] && Coherent(s)
    requires Trip(t) && |t| < TRIP && Agrees(s, t)
    ensures Trip(t + [Event(step, s)])
    ensures Agrees(Effect(s, step), if |t| + 1 == TRIP then [] else t + [Event(step, s)])
  {
    StepAdvances(st, step);
    var u := t + [Event(step, s)];
    assert forall i :: 0 <= i < |t| ==> u[i] == t[i];
  }

  lemma SlotInvStep(st: System, step: Step, i: nat)
    requires Inv(st) && Enabled(st, step) && i < |st.slots|
    ensures SlotInv(Apply(st, step), i)
  {
    var st' := Apply(st, step);
    assert st'.log[..|st'.log| - 1] == st.log;
    var h := On(st.log, i);
    assert SlotInv(st, i);
    if i == step.slot {
      var s := st.slots[i];
      CurrentTrip(h);
      EventContinuesTrip(s, step, Current(h), st);
      AppendEvent(h, Event(step, s));
      StepAdvances(st, step);
    } else {
      assert On(st'.log, i) == h;
    }
  }

  lemma OneSlotEachStep(st: System, step: Step)
    requires OneSlotEach(st.slots) && Enabled(st, step)
    ensures OneSlotEach(Apply(st, step).slots)
  {
    var a, b := st.slots, Apply(st, step).slots;
    forall i, j | 0 <= i < j < |b| ensures b[i].hv.vcpu == None || b[i].hv.vcpu != b[j].hv.vcpu {
      assert a[i].hv.vcpu == None || a[i].hv.vcpu != a[j].hv.vcpu;
    }
  }

  lemma InvStep(st: System, step: Step)
    requires Inv(st) && Enabled(st, step)
    ensures Inv(Apply(st, step))
  {
    forall i: nat | i < |st.slots| ensures SlotInv(Apply(st, step), i) { SlotInvStep(st, step, i); }
    OneSlotEachStep(st, step);
  }

  lemma InitialInv(st: System)
    requires Initial(st)
    ensures Inv(st)
  {
    forall i: nat | i < |st.slots| ensures SlotInv(st, i) {
      assert st.slots[i] in st.slots;
    }
    forall i, j | 0 <= i < j < |st.slots| ensures st.slots[i].hv.vcpu == None || st.slots[i].hv.vcpu != st.slots[j].hv.vcpu {
      assert st.slots[i] in st.slots;
    }
  }

  lemma {:induction false} InvAlways(st: System, steps: seq<Step>)
    requires Inv(st) && Runs(st, steps)
    ensures Inv(After(st, steps))
  {
    if steps != [] {
      var before := steps[..|steps| - 1];
      InvAlways(st, before);
      InvStep(After(st, before), steps[|steps| - 1]);
    }
  }

  // ----- what every run guarantees

  /** In every interleaving, each slot goes through whole trips in the order (a) to (f). */
  lemma TripsInOrder(st: System, steps: seq<Step>, slot: nat)
    requires Initial(st) && Runs(st, steps) && slot < |st.slots|
    ensures History(On(After(st, steps).log, slot))
  {
    InitialInv(st);
    InvAlways(st, steps);
    assert SlotInv(After(st, steps), slot);
  }

  lemma TripPrefix(t: seq<Event>, n: nat)
    requires Trip(t) && n <= |t|
    ensures Trip(t[..n])
  {
    var u := t[..n];
    assert forall i :: 0 <= i < n ==> u[i] == t[i];
  }

  /** Event i of a history is event `i % TRIP` of its own trip. */
  lemma {:induction false} TripAt(h: seq<Event>, i: nat) returns (t: seq<Event>)
    requires History(h) && i < |h|
    ensures Trip(t) && 0 < |t| <= i + 1 && t == h[i + 1 - |t|..i + 1]
  {
    if i < TRIP {
      t := FirstTrip(h, i + 1);
    } else {
      t := TripAt(h[TRIP..], i - TRIP);
      ShiftSlice(h, TRIP, i - TRIP + 1 - |t|, i - TRIP + 1);
    }
  }

  lemma FirstTrip(h: seq<Event>, n: nat) returns (t: seq<Event>)
    requires History(h) && 0 < n <= |h| && n <= TRIP
    ensures Trip(t) && |t| == n && t == h[0..n]
  {
    var whole := if |h| < TRIP then h else h[..TRIP];
    TripPrefix(whole, n);
    t := whole[..n];
    assert t == h[0..n];
  }

  lemma ShiftSlice<T>(h: seq<T>, k: nat, from: nat, to: nat)
    requires k <= |h| && from <= to <= |h| - k
    ensures h[k..][from..to] == h[k + from..k + to]
  {
    assert h[k..][from..to] == h[k + from..k + to];
  }

  /** At event i of its slot, what is consumed was produced by the assigned client for this very
      request: four events earlier that client handled it, for the access that was filled in nine
      events earlier; a write leaves the value that was filled in. */
  ghost predicate ConsumesOwnResult(h: seq<Event>, i: nat)
    requires i < |h|
  {
    && i >= 9 && h[i - 9].step.Fill? && h[i - 5].step.Assign? && h[i - 4].step.Handle?
    && h[i].seen.mem.value == h[i - 4].step.result
    && h[i - 4].step.client == h[i - 5].step.client
    && h[i - 4].seen.mem.access == h[i - 9].step.access == h[i].seen.mem.access
    && h[i].seen.hv.vcpu == Some(h[i - 9].step.vcpu)
    && (h[i].seen.mem.access.direction == Write ==> h[i].seen.mem.value == h[i - 9].step.value)
  }

  lemma PostInTrip(h: seq<Event>, i: nat, t: seq<Event>)
    requires i < |h| && h[i].step.Post? && 0 < |t| <= i + 1 && t == h[i + 1 - |t|..i + 1] && Trip(t)
    ensures ConsumesOwnResult(h, i)
  {
    var n := |t|;
    assert t[n - 1] == h[i] && Position(t[n - 1].step) == n - 1;
    assert Position(t[0].step) == 0 && Position(t[4].step) == 4 && Position(t[5].step) == 5;
    assert t[0] == h[i - 9] && t[4] == h[i - 5] && t[5] == h[i - 4];
  }

  /** In every run, whatever is consumed at (f) is never a result left from an earlier trip. */
  lemma ConsumedIsProduced(st: System, steps: seq<Step>, slot: nat, i: nat)
    requires Initial(st) && Runs(st, steps) && slot < |st.slots|
    requires i < |On(After(st, steps).log, slot)| && On(After(st, steps).log, slot)[i].step.Post?
    ensures ConsumesOwnResult(On(After(st, steps).log, slot), i)
  {
    TripsInOrder(st, steps, slot);
    var t := TripAt(On(After(st, steps).log, slot), i);
    PostInTrip(On(After(st, steps).log, slot), i, t);
  }
}
