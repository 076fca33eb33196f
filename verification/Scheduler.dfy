/** The cooperative round-robin scheduler: who runs next, who is woken, and how long a ready
    process can be made to wait. */
module Scheduler {
  import opened Options
  import opened ProcStates

  // What the scheduler looks at in a struct Process
  datatype Task = Task(state: ProcState, blockedOn: Option<nat>)

  // The process table and the index behind `current`, -1 for NULL
  datatype Sched = Sched(tasks: seq<Task>, current: int)

  // ------------------------------------------------------------------
  // Choosing
  // ------------------------------------------------------------------

  /** The first READY process found going round from offset i past `current`; -1 if none. */
  function PickFrom(s: Sched, i: nat): (r: int)
    requires 0 < |s.tasks| && -1 <= s.current
    ensures -1 <= r < |s.tasks| && (r >= 0 ==> s.tasks[r].state == Ready)
    decreases |s.tasks| + 1 - i
  {
    if i > |s.tasks| then -1
    else
      var idx := (s.current + i) % |s.tasks|;
      if s.tasks[idx].state == Ready then idx else PickFrom(s, i + 1)
  }

  function Pick(s: Sched): (r: int)
    requires 0 < |s.tasks| && -1 <= s.current
    ensures -1 <= r < |s.tasks| && (r >= 0 ==> s.tasks[r].state == Ready)
  {
    PickFrom(s, 1)
  }

  // How many places round the table p is past `current`: 1 .. |tasks|
  function Distance(n: nat, current: int, p: nat): (d: nat)
    requires p < n && -1 <= current < n
    ensures 1 <= d <= n && (current + d) % n == p
  {
    RoundTheTable(p, n);
    if p > current then p - current else p - current + n
  }

  lemma RoundTheTable(p: nat, n: nat)
    requires p < n
    ensures p % n == p && (p + n) % n == p
  {
    var q, r := (p + n) / n, (p + n) % n;
    assert p + n == q * n + r;
    assert q <= 0 ==> q * n <= 0;
    assert q >= 2 ==> q * n >= 2 * n;
  }

  /** Choosing finds the READY process at the least distance past `current`. */
  lemma {:induction false} PickIsNearest(s: Sched, i: nat, p: nat)
    requires 0 < |s.tasks| && -1 <= s.current < |s.tasks| && p < |s.tasks|
    requires s.tasks[p].state == Ready && 1 <= i <= Distance(|s.tasks|, s.current, p)
    ensures PickFrom(s, i) >= 0
    ensures i <= Distance(|s.tasks|, s.current, PickFrom(s, i)) <= Distance(|s.tasks|, s.current, p)
    decreases |s.tasks| + 1 - i
  {
    var n := |s.tasks|;
    var idx := (s.current + i) % n;
    if s.tasks[idx].state == Ready {
      OffsetIsDistance(n, s.current, i);
    } else {
      PickIsNearest(s, i + 1, p);
    }
  }

  lemma OffsetIsDistance(n: nat, current: int, i: nat)
    requires 0 < n && -1 <= current < n && 1 <= i <= n
    ensures Distance(n, current, (current + i) % n) == i
  {
    if current + i < n {
      assert (current + i) % n == current + i;
    } else {
      assert (current + i) % n == current + i - n;
    }
  }

  // The chosen process runs; the one that gave way goes back to READY if it was RUNNING.
  function Dispatch(s: Sched, idx: nat): Sched
    requires idx < |s.tasks| && -1 <= s.current < |s.tasks|
  {
    var t := s.tasks[idx := s.tasks[idx].(state := Running)];
    var gaveWay := s.current >= 0 && s.current != idx && t[s.current].state == Running;
    Sched(if gaveWay then t[s.current := t[s.current].(state := Ready)] else t, idx)
  }

  // What one round of proc_yield's loop comes to after the bottom halves ran
  datatype Outcome = Dispatched(idx: nat) | KeepsRunning | Idles | Halts

  predicate Alive(t: seq<Task>) {
    exists k :: 0 <= k < |t| && (t[k].state == Blocked || t[k].state == Ready)
  }

  function Round(s: Sched): (o: Outcome)
    requires 0 < |s.tasks| && -1 <= s.current < |s.tasks|
    ensures o.Dispatched? ==> o.idx < |s.tasks|
  {
    if Pick(s) >= 0 then Dispatched(Pick(s))
    else if s.current >= 0 && s.tasks[s.current].state == Running then KeepsRunning
    else if Alive(s.tasks) then Idles
    else Halts
  }

  /** A search that finds nothing means that nobody is READY. */
  lemma NothingPicked(s: Sched, p: nat)
    requires 0 < |s.tasks| && -1 <= s.current < |s.tasks| && Pick(s) < 0 && p < |s.tasks|
    ensures s.tasks[p].state != Ready
  {
    if s.tasks[p].state == Ready {
      PickIsNearest(s, 1, p);
    }
  }

  // Process p is READY, and none READY comes before it going round from the current one.
  predicate NextInTurn(s: Sched, p: int)
    requires -1 <= s.current < |s.tasks|
  {
    && 0 <= p < |s.tasks| && s.tasks[p].state == Ready
    && forall q :: 0 <= q < |s.tasks| && s.tasks[q].state == Ready ==>
         Turn(|s.tasks|, s.current, p) <= Turn(|s.tasks|, s.current, q)
  }

  // How far p's turn is away: the current process comes last.
  function Turn(n: nat, current: int, p: nat): int {
    if p > current then p - current else p + n - current
  }

  /** What a round of proc_yield comes to, told by the states of the processes: the READY process
      whose turn is next is picked; without one, a RUNNING caller goes on; else the processor waits
      if somebody is BLOCKED, and stops for good if nobody is. */
  lemma RoundTold(s: Sched)
    requires 0 < |s.tasks| && -1 <= s.current < |s.tasks|
    ensures var o := Round(s);
            if exists p :: 0 <= p < |s.tasks| && s.tasks[p].state == Ready then o.Dispatched? && NextInTurn(s, o.idx)
            else if s.current >= 0 && s.tasks[s.current].state == Running then o == KeepsRunning
            else if exists p :: 0 <= p < |s.tasks| && s.tasks[p].state == Blocked then o == Idles
            else o == Halts
  {
    if Pick(s) < 0 {
      forall p | 0 <= p < |s.tasks|
        ensures s.tasks[p].state != Ready
      {
        NothingPicked(s, p);
      }
    } else {
      forall q | 0 <= q < |s.tasks| && s.tasks[q].state == Ready
        ensures Turn(|s.tasks|, s.current, Pick(s)) <= Turn(|s.tasks|, s.current, q)
      {
        PickIsNearest(s, 1, q);
      }
      assert s.tasks[Pick(s)].state == Ready;
    }
  }

  /** Dispatching changes two processes at most: the one picked runs, the one that gave way is
      READY if it was RUNNING. */
  lemma DispatchTold(s: Sched, idx: nat)
    requires -1 <= s.current < |s.tasks| && idx < |s.tasks|
    ensures var d := Dispatch(s, idx);
            && d.current == idx && |d.tasks| == |s.tasks|
            && d.tasks[idx] == Task(Running, s.tasks[idx].blockedOn)
            && forall p :: 0 <= p < |s.tasks| && p != idx ==>
                 d.tasks[p] == if p == s.current && s.tasks[p].state == Running then Task(Ready, s.tasks[p].blockedOn)
                               else s.tasks[p]
  {
  }

  // One slot's part of proc_wakeup
  function Woken(t: Task, event: nat): Task {
    if t.state == Blocked && t.blockedOn == Some(event) then Task(Ready, None) else t
  }

  function Wakeup(t: seq<Task>, event: nat): seq<Task> {
    seq(|t|, k requires 0 <= k < |t| => Woken(t[k], event))
  }

  // ------------------------------------------------------------------
  // Steps and safety
  // ------------------------------------------------------------------

  datatype Step =
    | DoDispatch            // proc_yield or scheduler_run picks a process
    | DoSleep(event: nat)   // proc_sleep_on
    | DoWakeup(event: nat)  // proc_wakeup
    | DoExit                // proc_exit
    | DoCreate(slot: nat)   // proc_create and its kin
    | DoKill(slot: nat)     // proc_kill

  predicate Enabled(s: Sched, step: Step) {
    && 0 < |s.tasks| && -1 <= s.current < |s.tasks|
    && match step
       case DoDispatch => Pick(s) >= 0
       case DoSleep(_) => s.current >= 0 && s.tasks[s.current].state == Running
       case DoWakeup(_) => true
       case DoExit => s.current >= 0 && s.tasks[s.current].state == Running
       case DoCreate(slot) => slot < |s.tasks| && s.tasks[slot].state == Unused
       case DoKill(slot) => slot < |s.tasks| && s.tasks[slot].state in {Ready, Blocked, Zombie}
  }

  function Do(s: Sched, step: Step): Sched
    requires Enabled(s, step)
  {
    match step
    case DoDispatch => Dispatch(s, Pick(s))
    case DoSleep(e) => s.(tasks := s.tasks[s.current := Task(Blocked, Some(e))])
    case DoWakeup(e) => s.(tasks := Wakeup(s.tasks, e))
    case DoExit => s.(tasks := s.tasks[s.current := s.tasks[s.current].(state := Zombie)])
    case DoCreate(slot) => s.(tasks := s.tasks[slot := Task(Ready, None)])
    case DoKill(slot) => s.(tasks := s.tasks[slot := s.tasks[slot].(state := Unused)])
  }

  /** A RUNNING process is the current one, so there is at most one. */
  ghost predicate Safe(s: Sched) {
    && 0 < |s.tasks| && -1 <= s.current < |s.tasks|
    && forall k :: 0 <= k < |s.tasks| && s.tasks[k].state == Running ==> k == s.current
  }

  lemma StepKeepsSafe(s: Sched, step: Step)
    requires Safe(s) && Enabled(s, step)
    ensures Safe(Do(s, step)) && |Do(s, step).tasks| == |s.tasks|
    ensures step == DoDispatch ==> Do(s, step).tasks[Do(s, step).current].state == Running
  {
  }

  ghost predicate Run(states: seq<Sched>, steps: seq<Step>) {
    && |states| == |steps| + 1
    && forall k :: 0 <= k < |steps| ==> Enabled(states[k], steps[k]) && states[k + 1] == Do(states[k], steps[k])
  }

  lemma {:induction false} RunKeepsSafe(states: seq<Sched>, steps: seq<Step>)
    requires Run(states, steps) && Safe(states[0])
    ensures forall k :: 0 <= k < |states| ==> Safe(states[k]) && |states[k].tasks| == |states[0].tasks|
    decreases |steps|
  {
    if steps == [] {
    } else {
      var n := |steps| - 1;
      assert Run(states[..n + 1], steps[..n]);
      RunKeepsSafe(states[..n + 1], steps[..n]);
      assert states[..n + 1][n] == states[n];
      StepKeepsSafe(states[n], steps[n]);
      forall k | 0 <= k < |states|
        ensures Safe(states[k]) && |states[k].tasks| == |states[0].tasks|
      {
        if k <= n {
          assert states[..n + 1][k] == states[k];
        }
      }
    }
  }

  // ------------------------------------------------------------------
  // Bounded waiting
  // ------------------------------------------------------------------

  /** Each dispatch of somebody else brings a READY process strictly nearer to its turn. */
  lemma DispatchComesNearer(s: Sched, p: nat)
    requires Safe(s) && Enabled(s, DoDispatch) && p < |s.tasks| && s.tasks[p].state == Ready && Pick(s) != p
    ensures Distance(|s.tasks|, Pick(s), p) < Distance(|s.tasks|, s.current, p)
  {
    PickIsNearest(s, 1, p);
    var n := |s.tasks|;
    assert (s.current + Distance(n, s.current, p)) % n == p;
    assert (s.current + Distance(n, s.current, Pick(s))) % n == Pick(s);
  }

  function Dispatches(steps: seq<Step>): nat {
    if steps == [] then 0 else Dispatches(steps[..|steps| - 1]) + if steps[|steps| - 1] == DoDispatch then 1 else 0
  }

  // p waits all along: READY in every state, never the one dispatched.
  ghost predicate Waits(states: seq<Sched>, p: nat) {
    forall k :: 0 <= k < |states| ==> p < |states[k].tasks| && states[k].tasks[p].state == Ready
  }

  lemma {:induction false} WaitingPaysOff(states: seq<Sched>, steps: seq<Step>, p: nat)
    requires Run(states, steps) && Safe(states[0]) && Waits(states, p)
    ensures Safe(states[|steps|]) && |states[|steps|].tasks| == |states[0].tasks|
    ensures Dispatches(steps) + Distance(|states[0].tasks|, states[|steps|].current, p)
            <= Distance(|states[0].tasks|, states[0].current, p)
    decreases |steps|
  {
    RunKeepsSafe(states, steps);
    if steps == [] {
    } else {
      var n := |steps| - 1;
      assert Run(states[..n + 1], steps[..n]) && Waits(states[..n + 1], p);
      WaitingPaysOff(states[..n + 1], steps[..n], p);
      assert states[..n + 1][n] == states[n] && states[..n + 1][0] == states[0];
      if steps[n] == DoDispatch {
        assert states[n + 1].tasks[p].state == Ready;
        if Pick(states[n]) != p {
          DispatchComesNearer(states[n], p);
        }
      }
    }
  }

  /** Bounded waiting: while a process stays READY without being dispatched, at most
      |tasks| - 1 other dispatches happen, whatever processes are created, killed, put to sleep
      or woken in between - so it is among the next |tasks| dispatches. */
  lemma BoundedWaiting(states: seq<Sched>, steps: seq<Step>, p: nat)
    requires Run(states, steps) && Safe(states[0]) && Waits(states, p)
    ensures Dispatches(steps) < |states[0].tasks|
  {
    WaitingPaysOff(states, steps, p);
  }

  // ------------------------------------------------------------------
  // The code
  // ------------------------------------------------------------------

  class ProcTable {
    const tasks: array<Task>
    var current: int

    ghost predicate Valid()
      reads this, tasks
    {
      0 < tasks.Length && -1 <= current < tasks.Length
    }

    ghost function View(): Sched
      reads this, tasks
    {
      Sched(tasks[..], current)
    }

    constructor (n: nat)
      requires n > 0
      ensures Valid() && Safe(View()) && tasks.Length == n && current == -1 && fresh(tasks)
    {
      tasks := new Task[n](_ => Task(Unused, None));
      current := -1;
    }

    // One round of proc_yield's loop, up to the context switch
    method YieldRound() returns (o: Outcome)
      requires Valid()
      modifies this, tasks
      ensures Valid() && o == Round(old(View()))
      ensures View() == if o.Dispatched? then Dispatch(old(View()), o.idx) else old(View())
    {
      var n := tasks.Length;
      var i := 1;
      while i <= n
        invariant 1 <= i <= n + 1 && Valid() && View() == old(View())
        invariant PickFrom(View(), i) == Pick(View())
      {
        var idx := (current + i) % n;
        if tasks[idx].state == Ready {
          var prev := current;
          current := idx;
          tasks[idx] := tasks[idx].(state := Running);
          if prev >= 0 && prev != current && tasks[prev].state == Running {
            tasks[prev] := tasks[prev].(state := Ready);
          }
          return Dispatched(idx);
        }
        i := i + 1;
      }
      if current >= 0 && tasks[current].state == Running {
        return KeepsRunning;
      }
      for k := 0 to n
        invariant View() == old(View())
        invariant forall j :: 0 <= j < k ==> tasks[j].state != Blocked && tasks[j].state != Ready
      {
        if tasks[k].state == Blocked || tasks[k].state == Ready {
          assert Alive(tasks[..]) by {
            assert tasks[..][k].state == Blocked || tasks[..][k].state == Ready;
          }
          return Idles;
        }
      }
      return Halts;
    }

    // proc_sleep_on up to the yield
    method SleepOn(event: nat)
      requires Valid()
      modifies tasks
      ensures current < 0 ==> View() == old(View())
      ensures current >= 0 ==> View() == old(View()).(tasks := old(tasks[..])[current := Task(Blocked, Some(event))])
    {
      if current < 0 {
        return;
      }
      tasks[current] := tasks[current].(state := Blocked);
      tasks[current] := tasks[current].(blockedOn := Some(event));
    }

    // proc_wakeup
    method WakeupAll(event: nat)
      modifies tasks
      ensures tasks[..] == Wakeup(old(tasks[..]), event)
    {
      for i := 0 to tasks.Length
        invariant forall k :: 0 <= k < tasks.Length ==>
          tasks[k] == if k < i then Woken(old(tasks[k]), event) else old(tasks[k])
      {
        if tasks[i].state == Blocked && tasks[i].blockedOn == Some(event) {
          tasks[i] := tasks[i].(state := Ready);
          tasks[i] := tasks[i].(blockedOn := None);
        }
      }
    }
  }
}
