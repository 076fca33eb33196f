/** interrupt.c: handlers latch a flag per interrupt line; the scheduler consumes the flags and
    wakes the processes waiting for the lines' events. */
module Interrupts {
  import opened Options
  import opened ProcStates
  import opened Scheduler

  const LINES: nat := 16

  // irq_run_bottom_halves from line i on, undisturbed
  function BottomHalves(pending: seq<bool>, events: seq<nat>, t: seq<Task>, i: nat): (r: seq<Task>)
    requires |pending| == |events| && i <= |pending|
    ensures |r| == |t|
    decreases |pending| - i
  {
    if i == |pending| then t
    else BottomHalves(pending, events, if pending[i] then Wakeup(t, events[i]) else t, i + 1)
  }

  // Some line from i on is latched for the event.
  ghost predicate Latched(pending: seq<bool>, events: seq<nat>, event: nat, i: nat)
    requires |pending| == |events|
  {
    exists k :: i <= k < |pending| && pending[k] && events[k] == event
  }

  /** Running the bottom halves wakes exactly the processes blocked on an event some latched
      line stands for; everyone else is left as they were. */
  lemma {:induction false} BottomHalvesWake(pending: seq<bool>, events: seq<nat>, t: seq<Task>, i: nat, p: nat)
    requires |pending| == |events| && i <= |pending| && p < |t|
    ensures BottomHalves(pending, events, t, i)[p] ==
            if t[p].state == Blocked && t[p].blockedOn.Some? && Latched(pending, events, t[p].blockedOn.value, i)
            then Task(Ready, None) else t[p]
    decreases |pending| - i
  {
    if i == |pending| {
    } else {
      var t1 := if pending[i] then Wakeup(t, events[i]) else t;
      BottomHalvesWake(pending, events, t1, i + 1, p);
      if t[p].blockedOn.Some? && Latched(pending, events, t[p].blockedOn.value, i)
         && !Latched(pending, events, t[p].blockedOn.value, i + 1) {
        assert pending[i] && events[i] == t[p].blockedOn.value;
      }
    }
  }

  class IrqTable {
    const pending: array<bool>
    const events: array<nat>

    ghost predicate Valid()
    {
      pending.Length == events.Length
    }

    constructor ()
      ensures Valid() && fresh(pending) && fresh(events) && pending.Length == LINES
      ensures forall i :: 0 <= i < pending.Length ==> !pending[i]
    {
      pending := new bool[LINES](_ => false);
      events := new nat[LINES](_ => 0);
    }

    // irq_register, which panics on a line that does not exist
    method Register(irq: nat, event: nat)
      requires Valid() && irq < pending.Length
      modifies pending, events
      ensures pending[..] == old(pending[..])[irq := false] && events[..] == old(events[..])[irq := event]
    {
      events[irq] := event;
      pending[irq] := false;
    }

    // irq_dispatch after the top half
    method Latch(irq: nat)
      modifies pending
      ensures pending[..] == if irq < pending.Length then old(pending[..])[irq := true] else old(pending[..])
    {
      if irq >= pending.Length {
        return;
      }
      pending[irq] := true;
    }

    // irq_run_bottom_halves with no interrupt in between
    method RunBottomHalves(procs: ProcTable)
      requires Valid()
      modifies pending, procs.tasks
      ensures forall i :: 0 <= i < pending.Length ==> !pending[i]
      ensures procs.tasks[..] == BottomHalves(old(pending[..]), events[..], old(procs.tasks[..]), 0)
    {
      ghost var flags, goal := pending[..], BottomHalves(pending[..], events[..], procs.tasks[..], 0);
      for i := 0 to pending.Length
        invariant events[..] == old(events[..])
        invariant forall k :: 0 <= k < pending.Length ==> pending[k] == (k >= i && flags[k])
        invariant goal == BottomHalves(flags, events[..], procs.tasks[..], i)
      {
        if pending[i] {
          pending[i] := false;
          procs.WakeupAll(events[i]);
        }
      }
    }
  }
}
