/** The shared request buffer as it is changed in place: single guarded steps, and the HSM's scan
    that takes every PENDING request (b) and assigns it to a client (c). */
module IoRequestBuffer {
  import opened Options
  import opened IoRequests

  const ACRN_IO_REQUEST_MAX := 16

  /** What one scan makes of a slot. */
  function Dispatched(s: Slot, route: Access -> nat): Slot {
    if s.mem.processed == Pending
    then s.(mem := s.mem.(processed := Processing), hsm := Hsm(Some(route(s.mem.access)), false))
    else s
  }

  class RequestBuffer {
    const slots: array<Slot>
    ghost var log: seq<Event>

    ghost function View(): System
      reads this, slots
    {
      System(slots[..], log)
    }

    constructor ()
      ensures fresh(slots) && slots.Length == 16 && Initial(View())
    {
      slots := new Slot[ACRN_IO_REQUEST_MAX](_ => Slot(Memory(Free, PortIo(Read, 0, 0), 0, false), NOBODY, UNASSIGNED));
      log := [];
    }

    method Perform(step: Step) returns (ok: bool)
      modifies `log, slots
      ensures ok == Enabled(old(View()), step)
      ensures View() == if ok then Apply(old(View()), step) else old(View())
    {
      ok := Enabled(System(slots[..], []), step);
      if ok {
        log := log + [Event(step, slots[step.slot])];
        slots[step.slot] := Effect(slots[step.slot], step);
      }
    }

    /** (b) and (c) for one PENDING slot. */
    method Take(i: nat, client: nat)
      requires i < slots.Length && slots[i].mem.processed == Pending && Coherent(slots[i])
      modifies `log, slots
      ensures Enabled(old(View()), Claim(i)) && Enabled(Apply(old(View()), Claim(i)), Assign(i, client))
      ensures View() == Apply(Apply(old(View()), Claim(i)), Assign(i, client))
    {
      var _ := Perform(Claim(i));
      var _ := Perform(Assign(i, client));
    }

    method Scan(route: Access -> nat) returns (ghost steps: seq<Step>)
      requires forall i :: 0 <= i < slots.Length ==> Coherent(slots[i])
      modifies `log, slots
      ensures forall i :: 0 <= i < slots.Length ==> slots[i] == Dispatched(old(slots[i]), route)
      ensures Runs(old(View()), steps) && View() == After(old(View()), steps)
    {
      ghost var start := View();
      steps := [];
      for i := 0 to slots.Length
        invariant forall j :: 0 <= j < i ==> slots[j] == Dispatched(old(slots[j]), route)
        invariant forall j :: i <= j < slots.Length ==> slots[j] == old(slots[j])
        invariant Runs(start, steps) && View() == After(start, steps)
      {
        if slots[i].mem.processed == Pending {
          var client := route(slots[i].mem.access);
          ghost var before := View();
          Take(i, client);
          assert slots[..] == before.slots[i := Dispatched(before.slots[i], route)];
          ExtendTwice(start, steps, Claim(i), Assign(i, client));
          steps := steps + [Claim(i)] + [Assign(i, client)];
        }
      }
    }

    /** The scan takes exactly the PENDING requests, gives each to the client its access is routed
        to, and amounts to a run of protocol steps, so the invariant survives it. */
    method Dispatch(route: Access -> nat) returns (ghost steps: seq<Step>)
      requires Inv(View())
      modifies `log, slots
      ensures forall i :: 0 <= i < slots.Length ==>
                var s := old(slots[i]);
                if s.mem.processed == Pending then
                  && slots[i].mem == s.mem.(processed := Processing) && slots[i].hv == s.hv
                  && slots[i].hsm.client == Some(route(s.mem.access)) && !slots[i].hsm.handled
                else slots[i] == s
      ensures Runs(old(View()), steps) && View() == After(old(View()), steps) && Inv(View())
    {
      ghost var start := View();
      forall i | 0 <= i < slots.Length ensures Coherent(slots[i]) { assert SlotInv(start, i); }
      steps := Scan(route);
      InvAlways(start, steps);
    }
  }
}
