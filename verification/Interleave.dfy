/** Process code and interrupt handlers interleaved instruction by instruction: kb_getchar,
    proc_sleep_on, proc_yield and irq_run_bottom_halves on one side, the keyboard and other
    interrupts, which may strike between any two steps, on the other. */
module Interleave {
  import opened Bytes
  import opened Options
  import opened ProcStates
  import opened Keyboard
  import opened Scheduler
  import Interrupts

  const KB_IRQ: nat := 1

  // What a suspended process does when proc_yield returns to it
  datatype Kont = ToUser | ToGetChar

  // Where the processor is in kernel code
  datatype Pc =
    | User                                      // outside
    | GetHead                                   // kb_getchar: about to read head
    | GetTest(h: nat)                           // ... to compare it with tail
    | SleepState(event: nat, k: Kont)           // proc_sleep_on: about to set BLOCKED
    | SleepEvent(event: nat, k: Kont)           // ... to set blocked_on
    | Bottom(i: nat, k: Kont)                   // irq_run_bottom_halves: about to test pending[i]
    | Clear(i: nat, k: Kont)                    // ... to clear it
    | Wake(i: nat, j: nat, k: Kont)             // proc_wakeup for irq i, at process j
    | Scan(k: Kont)                             // proc_yield: about to look for a READY process
    | Doze(k: Kont)                             // ... about to execute sti; hlt
    | Halt(k: Kont)                             // halted until an interrupt
    | GetRead                                   // kb_getchar: about to read ring[tail]
    | GetAdvance(c: byte)                       // ... to advance tail
    | Stopped                                   // nothing left to run

  /** accepted: the characters the handler stored; consumed: those kb_getchar handed out. */
  datatype Sys = Sys(
    ring: Ring,
    pending: seq<bool>,
    events: seq<nat>,
    sched: Sched,
    konts: seq<Kont>,
    pc: Pc,
    accepted: seq<byte>,
    consumed: seq<byte>)

  datatype Label =
    | Irq(irq: nat, key: byte)  // an interrupt; key 0: no character
    | Step                      // the next instruction of kernel code
    | CallGetChar               // user code: kb_getchar
    | CallYield                 // ... proc_yield
    | CallSleep(event: nat)     // ... proc_sleep_on for another event than the keyboard's
    | CallExit                  // ... proc_exit
    | CallKill(slot: nat)       // ... proc_kill
    | CallCreate(slot: nat)     // ... proc_create

  // ------------------------------------------------------------------
  // Steps
  // ------------------------------------------------------------------

  predicate CurrentRuns(s: Sys) {
    0 <= s.sched.current < |s.sched.tasks| && s.sched.tasks[s.sched.current].state == Running
  }

  predicate Enabled(s: Sys, l: Label) {
    match l
    case Irq(irq, _) => irq < |s.pending|
    case Step => !s.pc.User? && !s.pc.Halt? && !s.pc.Stopped?
    case CallKill(slot) =>
      s.pc.User? && slot < |s.sched.tasks| && s.sched.tasks[slot].state in {Ready, Blocked, Zombie}
    case CallCreate(slot) => s.pc.User? && slot < |s.sched.tasks| && s.sched.tasks[slot].state == Unused
    case CallSleep(event) => s.pc.User? && event != KB_EVENT
    case _ => s.pc.User?
  }

  // irq_dispatch: the top half runs, then the flag is latched; a halted processor goes on
  // with the bottom halves.
  function Interrupt(s: Sys, irq: nat, key: byte): Sys
    requires Shape(s) && irq < |s.pending|
  {
    var stores := irq == KB_IRQ && key != 0 && Push(s.ring, key) != s.ring;
    s.(ring := if irq == KB_IRQ && key != 0 then Push(s.ring, key) else s.ring,
       accepted := if stores then s.accepted + [key] else s.accepted,
       pending := s.pending[irq := true],
       pc := if s.pc.Halt? then Bottom(0, s.pc.k) else s.pc)
  }

  function Resume(k: Kont): Pc {
    if k == ToGetChar then GetHead else User
  }

  // proc_yield's search and context switch
  function AfterScan(s: Sys, k: Kont): Sys
    requires Shape(s)
  {
    match Round(s.sched)
    case Dispatched(idx) =>
      var konts := if s.sched.current >= 0 then s.konts[s.sched.current := k] else s.konts;
      s.(sched := Dispatch(s.sched, idx), konts := konts, pc := Resume(konts[idx]))
    case KeepsRunning => s.(pc := Resume(k))
    case Idles => s.(pc := Doze(k))
    case Halts => s.(pc := Stopped)
  }

  function SetTask(s: Sys, i: int, t: Task): Sys
    requires 0 <= i < |s.sched.tasks|
  {
    s.(sched := s.sched.(tasks := s.sched.tasks[i := t]))
  }

  // The next instruction of kernel code
  function Instruction(s: Sys): Sys
    requires Shape(s) && ControlOk(s) && Enabled(s, Step)
  {
    match s.pc
    case GetHead => s.(pc := GetTest(s.ring.head))
    case GetTest(h) => s.(pc := if h == s.ring.tail then SleepState(KB_EVENT, ToGetChar) else GetRead)
    case SleepState(e, k) =>
      var t := s.sched.tasks[s.sched.current];
      SetTask(s, s.sched.current, t.(state := Blocked)).(pc := SleepEvent(e, k))
    case SleepEvent(e, k) =>
      var t := s.sched.tasks[s.sched.current];
      SetTask(s, s.sched.current, t.(blockedOn := Some(e))).(pc := Bottom(0, k))
    case Bottom(i, k) =>
      s.(pc := if i >= |s.pending| then Scan(k) else if s.pending[i] then Clear(i, k) else Bottom(i + 1, k))
    case Clear(i, k) => s.(pending := s.pending[i := false], pc := Wake(i, 0, k))
    case Wake(i, j, k) =>
      if j >= |s.sched.tasks| then s.(pc := Bottom(i + 1, k))
      else SetTask(s, j, Woken(s.sched.tasks[j], s.events[i])).(pc := Wake(i, j + 1, k))
    case Scan(k) => AfterScan(s, k)
    case Doze(k) => s.(pc := Halt(k))
    case GetRead => s.(pc := GetAdvance(s.ring.cells[s.ring.tail]))
    case GetAdvance(c) => s.(ring := Advance(s.ring), consumed := s.consumed + [c], pc := User)
  }

  function Next(s: Sys, l: Label): Sys
    requires Shape(s) && ControlOk(s) && Enabled(s, l)
  {
    match l
    case Irq(irq, key) => Interrupt(s, irq, key)
    case Step => Instruction(s)
    case CallGetChar => s.(pc := GetHead)
    case CallYield => s.(pc := Bottom(0, ToUser))
    case CallSleep(e) => s.(pc := SleepState(e, ToUser))
    case CallExit =>
      SetTask(s, s.sched.current, s.sched.tasks[s.sched.current].(state := Zombie)).(pc := Bottom(0, ToUser))
    case CallKill(slot) => SetTask(s, slot, s.sched.tasks[slot].(state := Unused))
    case CallCreate(slot) => SetTask(s, slot, Task(Ready, None)).(konts := s.konts[slot := ToUser])
  }

  // ------------------------------------------------------------------
  // The invariant
  // ------------------------------------------------------------------

  ghost predicate Shape(s: Sys) {
    && RingOk(s.ring)
    && |s.events| == |s.pending| && KB_IRQ < |s.pending| && s.events[KB_IRQ] == KB_EVENT
    && 0 < |s.sched.tasks| == |s.konts| && -1 <= s.sched.current < |s.sched.tasks|
  }

  // The processor is executing on behalf of a running process.
  predicate OnBehalf(pc: Pc) {
    pc.User? || pc.GetHead? || pc.GetTest? || pc.SleepState? || pc.GetRead? || pc.GetAdvance?
  }

  ghost predicate ControlOk(s: Sys)
    requires Shape(s)
  {
    && (OnBehalf(s.pc) ==> CurrentRuns(s))
    && (s.pc.SleepEvent? ==> s.sched.current >= 0 && s.sched.tasks[s.sched.current] == Task(Blocked, None))
    && (s.pc.Clear? ==> s.pc.i < |s.pending|)
    && (s.pc.Wake? ==> s.pc.i < |s.pending|)
    && forall p :: 0 <= p < |s.sched.tasks| && s.sched.tasks[p].state in {Ready, Running} ==>
         s.sched.tasks[p].blockedOn == None
  }

  /** The ring is a first-in first-out queue under every interleaving. */
  ghost predicate FifoOk(s: Sys)
    requires RingOk(s.ring)
  {
    && s.accepted == s.consumed + Waiting(s.ring)
    && (s.pc.GetTest? && s.pc.h != s.ring.tail ==> !Empty(s.ring))
    && (s.pc.GetRead? ==> !Empty(s.ring))
    && (s.pc.GetAdvance? ==> !Empty(s.ring) && s.ring.cells[s.ring.tail] == s.pc.c)
  }

  predicate SleepsOnKeyboard(t: Task) {
    t.state == Blocked && t.blockedOn == Some(KB_EVENT)
  }

  // Process p will be woken for the keyboard: the flag is latched, or the bottom half has
  // just taken it and has not yet come past p.
  ghost predicate WakeComing(s: Sys, p: int)
    requires Shape(s)
  {
    s.pending[KB_IRQ] || (s.pc.Wake? && s.pc.i == KB_IRQ && s.pc.j <= p)
  }

  /** No wake-up is lost: whoever sleeps on the keyboard while characters wait is about to be
      woken, and whoever has found the ring empty and is going to sleep is covered too. */
  ghost predicate NoLostWakeup(s: Sys)
    requires Shape(s)
  {
    && (forall p :: 0 <= p < |s.sched.tasks| && SleepsOnKeyboard(s.sched.tasks[p]) && !Empty(s.ring) ==>
          WakeComing(s, p))
    && (!Empty(s.ring) && GoingToSleep(s) ==> s.pending[KB_IRQ])
  }

  predicate GoingToSleep(s: Sys) {
    match s.pc
    case GetTest(h) => h == s.ring.tail
    case SleepState(e, _) => e == KB_EVENT
    case SleepEvent(e, _) => e == KB_EVENT
    case _ => false
  }

  ghost predicate Inv(s: Sys) {
    Shape(s) && Safe(s.sched) && ControlOk(s) && FifoOk(s) && NoLostWakeup(s)
  }

  // ------------------------------------------------------------------
  // Every step keeps it
  // ------------------------------------------------------------------

  lemma InterruptKeepsFifo(s: Sys, irq: nat, key: byte)
    requires Inv(s) && irq < |s.pending|
    ensures RingOk(Interrupt(s, irq, key).ring) && FifoOk(Interrupt(s, irq, key))
  {
    PushAppends(s.ring, key);
    PushRefusesIff(s.ring, key);
  }

  lemma InterruptKeepsControl(s: Sys, irq: nat, key: byte)
    requires Inv(s) && irq < |s.pending|
    ensures var s' := Interrupt(s, irq, key);
            Shape(s') && Safe(s'.sched) && ControlOk(s')
  {
  }

  // The flag is latched whenever a character may have come.
  lemma InterruptLosesNoWakeup(s: Sys, irq: nat, key: byte)
    requires Inv(s) && irq < |s.pending| && Shape(Interrupt(s, irq, key))
    ensures NoLostWakeup(Interrupt(s, irq, key))
  {
    var s' := Interrupt(s, irq, key);
    assert irq == KB_IRQ ==> s'.pending[KB_IRQ];
    assert irq != KB_IRQ ==> s'.ring == s.ring && s'.pending[KB_IRQ] == s.pending[KB_IRQ];
  }

  lemma InterruptKeepsInv(s: Sys, irq: nat, key: byte)
    requires Inv(s) && irq < |s.pending|
    ensures Inv(Interrupt(s, irq, key))
  {
    InterruptKeepsControl(s, irq, key);
    InterruptKeepsFifo(s, irq, key);
    InterruptLosesNoWakeup(s, irq, key);
  }

  lemma ScanKeepsControl(s: Sys)
    requires Inv(s) && s.pc.Scan?
    ensures Shape(Instruction(s)) && Safe(Instruction(s).sched) && ControlOk(Instruction(s))
  {
    if Pick(s.sched) >= 0 {
      StepKeepsSafe(s.sched, DoDispatch);
    }
  }

  lemma SleepersKeepControl(s: Sys)
    requires Inv(s) && Enabled(s, Step) && AtSleepers(s.pc)
    ensures Shape(Instruction(s)) && Safe(Instruction(s).sched) && ControlOk(Instruction(s))
  {
  }

  lemma OthersKeepControl(s: Sys)
    requires Inv(s) && Enabled(s, Step) && !AtSleepers(s.pc) && !s.pc.Scan?
    ensures Shape(Instruction(s)) && Safe(Instruction(s).sched) && ControlOk(Instruction(s))
  {
    assert Instruction(s).sched == s.sched && Instruction(s).pending == s.pending;
  }

  predicate AtRing(pc: Pc) {
    pc.GetHead? || pc.GetTest? || pc.GetRead? || pc.GetAdvance?
  }

  // Outside kb_getchar's own instructions nothing happens to the ring.
  lemma RingUntouched(s: Sys)
    requires Inv(s) && Enabled(s, Step) && !AtRing(s.pc)
    ensures var s' := Instruction(s);
            && s'.ring == s.ring && s'.accepted == s.accepted && s'.consumed == s.consumed
            && !s'.pc.GetTest? && !s'.pc.GetRead? && !s'.pc.GetAdvance?
  {
  }

  lemma InstructionKeepsFifo(s: Sys)
    requires Inv(s) && Enabled(s, Step)
    ensures RingOk(Instruction(s).ring) && FifoOk(Instruction(s))
  {
    if s.pc.GetAdvance? {
      AdvanceTakes(s.ring);
    } else if !AtRing(s.pc) {
      RingUntouched(s);
    }
  }

  // The instructions that change who sleeps on what, or the keyboard's flag
  predicate AtSleepers(pc: Pc) {
    pc.SleepState? || pc.SleepEvent? || pc.Clear? || pc.Wake?
  }

  lemma SleepersLoseNoWakeup(s: Sys)
    requires Inv(s) && Enabled(s, Step) && AtSleepers(s.pc) && Shape(Instruction(s))
    ensures NoLostWakeup(Instruction(s))
  {
  }

  lemma ScanLosesNoWakeup(s: Sys)
    requires Inv(s) && s.pc.Scan? && Shape(Instruction(s))
    ensures NoLostWakeup(Instruction(s))
  {
  }

  lemma OthersLoseNoWakeup(s: Sys)
    requires Inv(s) && Enabled(s, Step) && !AtSleepers(s.pc) && !s.pc.Scan? && Shape(Instruction(s))
    ensures NoLostWakeup(Instruction(s))
  {
    var s' := Instruction(s);
    assert s'.sched == s.sched && s'.pending == s.pending;
    assert !Empty(s'.ring) ==> !Empty(s.ring);
  }

  lemma InstructionKeepsInv(s: Sys)
    requires Inv(s) && Enabled(s, Step)
    ensures Inv(Instruction(s))
  {
    if s.pc.Scan? {
      ScanKeepsControl(s);
      ScanLosesNoWakeup(s);
    } else {
      if AtSleepers(s.pc) {
        SleepersKeepControl(s);
        SleepersLoseNoWakeup(s);
      } else {
        OthersKeepControl(s);
        OthersLoseNoWakeup(s);
      }
    }
    InstructionKeepsFifo(s);
  }

  lemma CallKeepsInv(s: Sys, l: Label)
    requires Inv(s) && Enabled(s, l) && !l.Irq? && !l.Step?
    ensures Inv(Next(s, l))
  {
  }

  lemma NextKeepsInv(s: Sys, l: Label)
    requires Inv(s) && Enabled(s, l)
    ensures Inv(Next(s, l))
  {
    match l
    case Irq(irq, key) => InterruptKeepsInv(s, irq, key);
    case Step => InstructionKeepsInv(s);
    case _ => CallKeepsInv(s, l);
  }

  // ------------------------------------------------------------------
  // Waiting only when there is nothing to run
  // ------------------------------------------------------------------

  predicate NobodyIn(t: seq<Task>, states: set<ProcState>) {
    forall p :: 0 <= p < |t| ==> t[p].state !in states
  }

  /** The processor waits for an interrupt only while no process could run and some process is
      asleep, and stops for good only when none could ever run again. */
  ghost predicate RestOk(s: Sys) {
    && (s.pc.Doze? || s.pc.Halt? ==>
          && NobodyIn(s.sched.tasks, {Ready, Running})
          && exists p :: 0 <= p < |s.sched.tasks| && s.sched.tasks[p].state == Blocked)
    && (s.pc.Stopped? ==> NobodyIn(s.sched.tasks, {Ready, Running, Blocked}))
  }

  /** proc_yield's search: a READY process is resumed if there is one; if not, a RUNNING caller
      goes on where it called, with nothing changed; if neither, the processor is about to wait
      exactly if somebody is BLOCKED. */
  lemma ScanTold(s: Sys)
    requires Inv(s) && s.pc.Scan?
    ensures var s', t, c := Instruction(s), s.sched.tasks, s.sched.current;
            if exists p :: 0 <= p < |t| && t[p].state == Ready then
              && NextInTurn(s.sched, s'.sched.current) && s'.sched.tasks[s'.sched.current].state == Running
              && s'.konts == (if c >= 0 then s.konts[c := s.pc.k] else s.konts)
              && s'.pc == if s'.konts[s'.sched.current] == ToGetChar then GetHead else User
            else if c >= 0 && t[c].state == Running then
              s' == s.(pc := if s.pc.k == ToGetChar then GetHead else User)
            else
              s' == s.(pc := if exists p :: 0 <= p < |t| && t[p].state == Blocked then Doze(s.pc.k) else Stopped)
  {
    RoundTold(s.sched);
  }

  lemma InstructionKeepsRest(s: Sys)
    requires Inv(s) && RestOk(s) && Enabled(s, Step)
    ensures RestOk(Instruction(s))
  {
    if s.pc.Scan? {
      ScanTold(s);
    }
  }

  lemma NextKeepsRest(s: Sys, l: Label)
    requires Inv(s) && RestOk(s) && Enabled(s, l)
    ensures RestOk(Next(s, l))
  {
    if l.Step? {
      InstructionKeepsRest(s);
    }
  }

  // ------------------------------------------------------------------
  // Runs
  // ------------------------------------------------------------------

  // The machine once processes were created and scheduler_run is entered
  ghost predicate Boot(s: Sys) {
    && Shape(s) && Empty(s.ring) && s.accepted == [] && s.consumed == []
    && s.sched.current == -1 && s.pc == Scan(ToUser)
    && forall p :: 0 <= p < |s.sched.tasks| ==>
         s.sched.tasks[p].state in {Unused, Ready} && s.sched.tasks[p].blockedOn == None
  }

  lemma BootInv(s: Sys)
    requires Boot(s)
    ensures Inv(s)
  {
    assert Waiting(s.ring) == [];
  }

  ghost predicate Run(s: Sys, ls: seq<Label>, s': Sys)
    requires Inv(s)
    decreases |ls|
  {
    if ls == [] then s == s'
    else Enabled(s, ls[0]) && (NextKeepsInv(s, ls[0]); Run(Next(s, ls[0]), ls[1..], s'))
  }

  lemma {:induction false} RunKeepsInv(s: Sys, ls: seq<Label>, s': Sys)
    requires Inv(s) && Run(s, ls, s')
    ensures Inv(s')
    decreases |ls|
  {
    if ls == [] {
    } else {
      NextKeepsInv(s, ls[0]);
      RunKeepsInv(Next(s, ls[0]), ls[1..], s');
    }
  }

  lemma {:induction false} RunKeepsRest(s: Sys, ls: seq<Label>, s': Sys)
    requires Inv(s) && RestOk(s) && Run(s, ls, s')
    ensures RestOk(s')
    decreases |ls|
  {
    if ls == [] {
    } else {
      NextKeepsInv(s, ls[0]);
      NextKeepsRest(s, ls[0]);
      RunKeepsRest(Next(s, ls[0]), ls[1..], s');
    }
  }

  /** Over every interleaving from boot, proc_yield lets the processor wait or stop only when it
      has to. */
  lemma RestsOnlyIdle(s0: Sys, ls: seq<Label>, s: Sys)
    requires Boot(s0) && (BootInv(s0); Run(s0, ls, s))
    ensures RestOk(s)
  {
    BootInv(s0);
    RunKeepsRest(s0, ls, s);
  }

  // The machine after n instructions of kernel code with no interrupt among them
  ghost predicate Steps(s: Sys, n: nat, s': Sys)
    requires Inv(s)
    decreases n
  {
    if n == 0 then s == s'
    else Enabled(s, Step) && (NextKeepsInv(s, Step); Steps(Next(s, Step), n - 1, s'))
  }

  /** kb_getchar with a character waiting hands out the oldest one and returns, four
      instructions later, having changed nothing else. */
  lemma GetCharTakes(s: Sys, s': Sys)
    requires Inv(s) && s.pc == GetHead && !Empty(s.ring) && Steps(s, 4, s')
    ensures s'.pc == User && RingOk(s'.ring)
    ensures s'.consumed == s.consumed + [Waiting(s.ring)[0]] && Waiting(s'.ring) == Waiting(s.ring)[1..]
    ensures s'.sched == s.sched && s'.pending == s.pending && s'.accepted == s.accepted
  {
    FourSteps(s, s');
    AdvanceTakes(s.ring);
  }

  /** With none waiting it puts its caller, and nobody else, to sleep on the keyboard and goes on
      in proc_yield; it will look again when resumed. */
  lemma GetCharSleeps(s: Sys, s': Sys)
    requires Inv(s) && s.pc == GetHead && Empty(s.ring) && Steps(s, 4, s')
    ensures s'.pc == Bottom(0, ToGetChar) && s'.ring == s.ring && s'.consumed == s.consumed
    ensures s'.sched.current == s.sched.current >= 0 && |s'.sched.tasks| == |s.sched.tasks|
    ensures SleepsOnKeyboard(s'.sched.tasks[s.sched.current])
    ensures forall p :: 0 <= p < |s.sched.tasks| && p != s.sched.current ==> s'.sched.tasks[p] == s.sched.tasks[p]
  {
    FourSteps(s, s');
  }

  lemma FourSteps(s: Sys, s': Sys)
    requires Inv(s) && s.pc == GetHead && Steps(s, 4, s')
    ensures s' == if s.ring.head == s.ring.tail
                  then SetTask(s, s.sched.current, Task(Blocked, Some(KB_EVENT))).(pc := Bottom(0, ToGetChar))
                  else s.(ring := Advance(s.ring), consumed := s.consumed + [s.ring.cells[s.ring.tail]], pc := User)
  {
    var s1 := Next(s, Step);
    NextKeepsInv(s, Step);
    var s2 := Next(s1, Step);
    NextKeepsInv(s1, Step);
    var s3 := Next(s2, Step);
    NextKeepsInv(s2, Step);
    assert Steps(s1, 3, s') && Steps(s2, 2, s') && Steps(s3, 1, s');
    NextKeepsInv(s3, Step);
    assert Steps(Next(s3, Step), 0, s');
  }

  /** No lost wake-up, over every interleaving from boot: a process asleep on the keyboard
      while a character waits has the keyboard's flag latched for it, or the bottom half that
      took the flag has still to come past it. */
  lemma WakeupsNeverLost(s0: Sys, ls: seq<Label>, s: Sys, p: nat)
    requires Boot(s0) && (BootInv(s0); Run(s0, ls, s))
    requires p < |s.sched.tasks| && SleepsOnKeyboard(s.sched.tasks[p]) && !Empty(s.ring)
    ensures Shape(s) && WakeComing(s, p)
  {
    BootInv(s0);
    RunKeepsInv(s0, ls, s);
  }

  /** First in, first out, over every interleaving from boot: what kb_getchar has handed out
      followed by what waits is exactly what the handler accepted, and a character is refused
      only when all cells but one are taken. */
  lemma RingIsFifo(s0: Sys, ls: seq<Label>, s: Sys, key: byte)
    requires Boot(s0) && (BootInv(s0); Run(s0, ls, s))
    ensures RingOk(s.ring) && s.accepted == s.consumed + Waiting(s.ring)
    ensures Push(s.ring, key) == s.ring <==> |Waiting(s.ring)| == |s.ring.cells| - 1
  {
    BootInv(s0);
    RunKeepsInv(s0, ls, s);
    PushRefusesIff(s.ring, key);
  }

  // ------------------------------------------------------------------
  // The wake-up arrives
  // ------------------------------------------------------------------

  // The bottom halves are being run.
  predicate InBottom(pc: Pc) {
    pc.Bottom? || pc.Clear? || pc.Wake?
  }

  // p is awake, or the bottom halves under way will still get to it.
  ghost predicate WillWake(s: Sys, p: nat)
    requires Shape(s) && p < |s.sched.tasks|
  {
    || s.sched.tasks[p].state == Ready
    || (SleepsOnKeyboard(s.sched.tasks[p])
        && match s.pc
           case Bottom(i, _) => i <= KB_IRQ && s.pending[KB_IRQ]
           case Clear(i, _) => i <= KB_IRQ && s.pending[KB_IRQ]
           case Wake(i, j, _) => (i < KB_IRQ && s.pending[KB_IRQ]) || (i == KB_IRQ && j <= p)
           case _ => false)
  }

  lemma StepWillWake(s: Sys, l: Label, p: nat)
    requires Inv(s) && p < |s.sched.tasks| && InBottom(s.pc) && WillWake(s, p)
    requires Enabled(s, l) && (l.Step? || l.Irq?) && Shape(Next(s, l)) && |Next(s, l).sched.tasks| == |s.sched.tasks|
    ensures WillWake(Next(s, l), p)
    ensures InBottom(Next(s, l).pc) || (Next(s, l).pc.Scan? && Next(s, l).sched.tasks[p].state == Ready)
  {
  }

  // A stretch of a run spent in the bottom halves until they are done
  ghost predicate BottomRun(s: Sys, ls: seq<Label>, s': Sys)
    requires Inv(s)
    decreases |ls|
  {
    && InBottom(s.pc) && ls != []
    && Enabled(s, ls[0]) && (ls[0].Step? || ls[0].Irq?)
    && (NextKeepsInv(s, ls[0]);
        if |ls| == 1 then Next(s, ls[0]) == s' && s'.pc.Scan? else BottomRun(Next(s, ls[0]), ls[1..], s'))
  }

  lemma TasksStay(s: Sys, l: Label)
    requires Inv(s) && Enabled(s, l)
    ensures |Next(s, l).sched.tasks| == |s.sched.tasks|
  {
  }

  lemma {:induction false} BottomWakes(s: Sys, ls: seq<Label>, s': Sys, p: nat)
    requires Inv(s) && BottomRun(s, ls, s') && p < |s.sched.tasks| && WillWake(s, p)
    ensures |s'.sched.tasks| == |s.sched.tasks| && s'.sched.tasks[p].state == Ready
    decreases |ls|
  {
    NextKeepsInv(s, ls[0]);
    TasksStay(s, ls[0]);
    StepWillWake(s, ls[0], p);
    if |ls| == 1 {
    } else {
      BottomWakes(Next(s, ls[0]), ls[1..], s', p);
    }
  }

  /** A process asleep on the keyboard while a character waits is READY once
      irq_run_bottom_halves, entered now, has run to its end, whatever interrupts strike on
      the way. */
  lemma SleeperIsWoken(s: Sys, ls: seq<Label>, s': Sys, p: nat)
    requires Inv(s) && s.pc.Bottom? && s.pc.i == 0 && BottomRun(s, ls, s')
    requires p < |s.sched.tasks| && SleepsOnKeyboard(s.sched.tasks[p]) && !Empty(s.ring)
    ensures |s'.sched.tasks| == |s.sched.tasks| && s'.sched.tasks[p].state == Ready
  {
    BottomWakes(s, ls, s', p);
  }

  // ------------------------------------------------------------------
  // Halting
  // ------------------------------------------------------------------

  // Running the bottom halves now would wake somebody.
  ghost predicate Unserved(s: Sys)
    requires Shape(s)
  {
    Interrupts.BottomHalves(s.pending, s.events, s.sched.tasks, 0) != s.sched.tasks
  }

  // Line i is latched and process p sleeps on its event.
  predicate Awaited(s: Sys, i: nat, p: nat)
    requires Shape(s) && i < |s.pending| && p < |s.sched.tasks|
  {
    s.pending[i] && s.sched.tasks[p].state == Blocked && s.sched.tasks[p].blockedOn == Some(s.events[i])
  }

  lemma AwaitedIsUnserved(s: Sys, i: nat, p: nat)
    requires Shape(s) && i < |s.pending| && p < |s.sched.tasks| && Awaited(s, i, p)
    ensures Unserved(s)
  {
    Interrupts.BottomHalvesWake(s.pending, s.events, s.sched.tasks, 0, p);
  }

  lemma UnservedIsAwaited(s: Sys) returns (i: nat, p: nat)
    requires Shape(s) && Unserved(s)
    ensures i < |s.pending| && p < |s.sched.tasks| && Awaited(s, i, p)
  {
    var woken := Interrupts.BottomHalves(s.pending, s.events, s.sched.tasks, 0);
    p :| p < |woken| && woken[p] != s.sched.tasks[p];
    Interrupts.BottomHalvesWake(s.pending, s.events, s.sched.tasks, 0, p);
    i :| i < |s.pending| && s.pending[i] && s.events[i] == s.sched.tasks[p].blockedOn.value;
  }

  /** When `sti; hlt` halts with work left: in every state about to execute it, the halted
      processor leaves somebody asleep whom the bottom halves would wake exactly if some latched
      line is awaited - a test of the flags. With no flag set it leaves nobody, and no
      character waits for a sleeping reader. */
  lemma HaltOversleepsIff(s: Sys)
    requires Inv(s) && s.pc.Doze?
    ensures var h := Next(s, Step);
            h.pc.Halt? && Inv(h)
            && (Unserved(h) <==> exists i: nat, p: nat :: i < |s.pending| && p < |s.sched.tasks| && Awaited(s, i, p))
            && ((forall i :: 0 <= i < |s.pending| ==> !s.pending[i]) ==> !Unserved(h))
    ensures forall p :: 0 <= p < |s.sched.tasks| && SleepsOnKeyboard(s.sched.tasks[p]) && !Empty(s.ring) ==>
              s.pending[KB_IRQ]
  {
    var h := Next(s, Step);
    NextKeepsInv(s, Step);
    if Unserved(h) {
      var i, p := UnservedIsAwaited(h);
      assert Awaited(s, i, p);
    }
    forall i: nat, p: nat | i < |s.pending| && p < |s.sched.tasks| && Awaited(s, i, p)
      ensures Unserved(h)
    {
      AwaitedIsUnserved(h, i, p);
    }
  }

  // From entering the bottom halves to being about to halt
  predicate Idling(pc: Pc) {
    pc.Bottom? || pc.Clear? || pc.Wake? || pc.Scan? || pc.Doze?
  }

  // The bottom halves have taken line i, or found it clear.
  predicate Passed(pc: Pc, i: nat) {
    match pc
    case Bottom(j, _) => i < j
    case Clear(j, _) => i < j
    case Wake(j, _, _) => i <= j
    case _ => true
  }

  // One round of proc_yield, interrupts included, that finds nobody READY
  ghost predicate IdleRound(s: Sys, ls: seq<Label>, d: Sys)
    requires Inv(s)
    decreases |ls|
  {
    && Idling(s.pc)
    && if ls == [] then s == d && s.pc.Doze?
       else
         && Enabled(s, ls[0]) && (ls[0].Step? || ls[0].Irq?)
         && (NextKeepsInv(s, ls[0]); IdleRound(Next(s, ls[0]), ls[1..], d))
  }

  // An interrupt on line i strikes after the bottom halves have passed it.
  ghost predicate Late(s: Sys, ls: seq<Label>, i: nat)
    requires Inv(s)
    decreases |ls|
  {
    && ls != [] && Enabled(s, ls[0])
    && ((ls[0].Irq? && ls[0].irq == i && Passed(s.pc, i))
        || (NextKeepsInv(s, ls[0]); Late(Next(s, ls[0]), ls[1..], i)))
  }

  // A passed line's flag changes by its own interrupt only; passing leaves it clear.
  lemma FlagAfter(s: Sys, l: Label, i: nat)
    requires Inv(s) && Idling(s.pc) && Enabled(s, l) && (l.Step? || l.Irq?) && i < |s.pending|
    requires Idling(Next(s, l).pc)
    ensures |Next(s, l).pending| == |s.pending|
    ensures var s' := Next(s, l);
            (Passed(s'.pc, i) && s'.pending[i]) <==>
            (Passed(s.pc, i) && (s.pending[i] || (l.Irq? && l.irq == i)))
  {
  }

  /** When a round ends about to halt, exactly the lines whose interrupt struck after the bottom
      halves had passed them are latched. */
  lemma {:induction false} LatchedIffLate(s: Sys, ls: seq<Label>, d: Sys, i: nat)
    requires Inv(s) && IdleRound(s, ls, d) && i < |s.pending|
    ensures |d.pending| == |s.pending|
    ensures d.pending[i] <==> (Passed(s.pc, i) && s.pending[i]) || Late(s, ls, i)
    decreases |ls|
  {
    if ls == [] {
      assert s == d;
    } else {
      var s1 := Next(s, ls[0]);
      NextKeepsInv(s, ls[0]);
      assert Idling(s1.pc);
      FlagAfter(s, ls[0], i);
      LatchedIffLate(s1, ls[1..], d, i);
    }
  }

  /** So the processor halts over a sleeper it could wake exactly if, since it last entered the
      bottom halves, an interrupt some sleeper waits for struck too late for them. */
  lemma OversleepsIffLate(s: Sys, ls: seq<Label>, d: Sys)
    requires Inv(s) && s.pc.Bottom? && s.pc.i == 0 && IdleRound(s, ls, d)
    ensures Inv(d) && d.pc.Doze? && |d.pending| == |s.pending|
    ensures Unserved(Next(d, Step)) <==>
            exists i: nat, p: nat ::
              i < |d.pending| && p < |d.sched.tasks| && Late(s, ls, i) && SleepsOn(d, p, d.events[i])
  {
    RoundKeepsInv(s, ls, d);
    HaltOversleepsIff(d);
    LatchedIffLate(s, ls, d, 0);
    forall i: nat, p: nat | i < |d.pending| && p < |d.sched.tasks|
      ensures Awaited(d, i, p) <==> Late(s, ls, i) && SleepsOn(d, p, d.events[i])
    {
      LatchedIffLate(s, ls, d, i);
    }
  }

  predicate SleepsOn(s: Sys, p: nat, event: nat)
    requires p < |s.sched.tasks|
  {
    s.sched.tasks[p].state == Blocked && s.sched.tasks[p].blockedOn == Some(event)
  }

  lemma {:induction false} RoundKeepsInv(s: Sys, ls: seq<Label>, d: Sys)
    requires Inv(s) && IdleRound(s, ls, d)
    ensures Inv(d) && d.pc.Doze?
    decreases |ls|
  {
    if ls == [] {
    } else {
      NextKeepsInv(s, ls[0]);
      RoundKeepsInv(Next(s, ls[0]), ls[1..], d);
    }
  }

  /** Late, but not lost: whatever interrupt ends the halt, the bottom halves it leads into make
      every reader asleep over a waiting character READY. */
  lemma LateNotLost(h: Sys, irq: nat, key: byte, ls: seq<Label>, s': Sys, p: nat)
    requires Inv(h) && h.pc.Halt? && irq < |h.pending|
    requires p < |h.sched.tasks| && SleepsOnKeyboard(h.sched.tasks[p]) && !Empty(h.ring)
    requires (NextKeepsInv(h, Irq(irq, key)); BottomRun(Next(h, Irq(irq, key)), ls, s'))
    ensures |s'.sched.tasks| == |h.sched.tasks| && s'.sched.tasks[p].state == Ready
  {
    var s1 := Next(h, Irq(irq, key));
    NextKeepsInv(h, Irq(irq, key));
    PushAppends(h.ring, key);
    SleeperIsWoken(s1, ls, s', p);
  }

  /** One way it comes about: interrupts are enabled before `sti; hlt`, so a key struck just
      before it leaves the processor halted with the flag latched, a process asleep and its
      character waiting, until some further interrupt. */
  lemma HaltCanOversleep(s: Sys, p: nat, key: byte)
    requires Inv(s) && s.pc.Doze? && Empty(s.ring) && key != 0
    requires p < |s.sched.tasks| && SleepsOnKeyboard(s.sched.tasks[p])
    ensures Enabled(s, Irq(KB_IRQ, key)) && Inv(Next(s, Irq(KB_IRQ, key)))
    ensures var s1 := Next(s, Irq(KB_IRQ, key));
            Enabled(s1, Step) && var s2 := Next(s1, Step);
            s2.pc.Halt? && !Empty(s2.ring) && s2.sched.tasks == s.sched.tasks && s2.pending[KB_IRQ]
  {
    NextKeepsInv(s, Irq(KB_IRQ, key));
    PushAppends(s.ring, key);
  }

  ghost predicate Reaches(s0: Sys, s: Sys)
    requires Inv(s0)
  {
    exists ls :: Run(s0, ls, s)
  }

  lemma {:induction false} RunGoesOn(s0: Sys, ls: seq<Label>, s: Sys, l: Label)
    requires Inv(s0) && Run(s0, ls, s) && Inv(s) && Enabled(s, l)
    ensures Run(s0, ls + [l], Next(s, l))
    decreases |ls|
  {
    if ls == [] {
      NextKeepsInv(s, l);
      assert [l][1..] == [] && ls + [l] == [l];
      assert Run(Next(s, l), [], Next(s, l));
    } else {
      NextKeepsInv(s0, ls[0]);
      RunGoesOn(Next(s0, ls[0]), ls[1..], s, l);
      assert (ls + [l])[1..] == ls[1..] + [l];
    }
  }

  lemma ReachesNext(s0: Sys, s: Sys, l: Label, s': Sys)
    requires Inv(s0) && Reaches(s0, s) && Inv(s) && Enabled(s, l) && Next(s, l) == s'
    ensures Reaches(s0, s') && Inv(s')
  {
    var ls :| Run(s0, ls, s);
    RunGoesOn(s0, ls, s, l);
    NextKeepsInv(s, l);
  }

  // One process on a machine with two interrupt lines and a ring of two cells
  function Small(t: Task, current: int, pc: Pc): Sys {
    Sys(Ring([0, 0], 0, 0), [false, false], [0, KB_EVENT], Sched([t], current), [ToUser], pc, [], [])
  }

  // The one process gets the CPU and calls kb_getchar, which finds the ring empty.
  lemma ReaderGoesToSleep(s0: Sys)
    requires s0 == Small(Task(Ready, None), -1, Scan(ToUser)) && Inv(s0)
    ensures Reaches(s0, Small(Task(Running, None), 0, SleepState(KB_EVENT, ToGetChar)))
    ensures Inv(Small(Task(Running, None), 0, SleepState(KB_EVENT, ToGetChar)))
  {
    var t := Task(Running, None);
    assert Run(s0, [], s0);
    assert Pick(s0.sched) == 0;
    ReachesNext(s0, s0, Step, Small(t, 0, User));
    ReachesNext(s0, Small(t, 0, User), CallGetChar, Small(t, 0, GetHead));
    ReachesNext(s0, Small(t, 0, GetHead), Step, Small(t, 0, GetTest(0)));
    ReachesNext(s0, Small(t, 0, GetTest(0)), Step, Small(t, 0, SleepState(KB_EVENT, ToGetChar)));
  }

  // It blocks and no line is latched.
  lemma ReaderBlocks(s0: Sys)
    requires Inv(s0) && Inv(Small(Task(Running, None), 0, SleepState(KB_EVENT, ToGetChar)))
    requires Reaches(s0, Small(Task(Running, None), 0, SleepState(KB_EVENT, ToGetChar)))
    ensures Reaches(s0, Small(Task(Blocked, Some(KB_EVENT)), 0, Bottom(1, ToGetChar)))
    ensures Inv(Small(Task(Blocked, Some(KB_EVENT)), 0, Bottom(1, ToGetChar)))
  {
    var t, k := Task(Blocked, Some(KB_EVENT)), ToGetChar;
    var going := Small(Task(Blocked, None), 0, SleepEvent(KB_EVENT, k));
    ReachesNext(s0, Small(Task(Running, None), 0, SleepState(KB_EVENT, k)), Step, going);
    ReachesNext(s0, going, Step, Small(t, 0, Bottom(0, k)));
    ReachesNext(s0, Small(t, 0, Bottom(0, k)), Step, Small(t, 0, Bottom(1, k)));
  }

  // Nobody is READY, so the processor is about to halt.
  lemma NobodyReady(s0: Sys)
    requires Inv(s0) && Inv(Small(Task(Blocked, Some(KB_EVENT)), 0, Bottom(1, ToGetChar)))
    requires Reaches(s0, Small(Task(Blocked, Some(KB_EVENT)), 0, Bottom(1, ToGetChar)))
    ensures Reaches(s0, Small(Task(Blocked, Some(KB_EVENT)), 0, Doze(ToGetChar)))
    ensures Inv(Small(Task(Blocked, Some(KB_EVENT)), 0, Doze(ToGetChar)))
  {
    var t, k := Task(Blocked, Some(KB_EVENT)), ToGetChar;
    ReachesNext(s0, Small(t, 0, Bottom(1, k)), Step, Small(t, 0, Bottom(2, k)));
    ReachesNext(s0, Small(t, 0, Bottom(2, k)), Step, Small(t, 0, Scan(k)));
    assert Pick(Small(t, 0, Scan(k)).sched) == -1;
    ReachesNext(s0, Small(t, 0, Scan(k)), Step, Small(t, 0, Doze(k)));
  }

  /** And it does happen: from boot a run leads to a halted processor, its one process asleep
      on the keyboard with a character waiting. */
  lemma OversleepIsReachable() returns (s0: Sys, s: Sys)
    ensures Boot(s0) && (BootInv(s0); Reaches(s0, s))
    ensures s.pc.Halt? && RingOk(s.ring) && !Empty(s.ring) && |s.sched.tasks| == 1 && SleepsOnKeyboard(s.sched.tasks[0])
  {
    s0 := Small(Task(Ready, None), -1, Scan(ToUser));
    BootInv(s0);
    ReaderGoesToSleep(s0);
    ReaderBlocks(s0);
    NobodyReady(s0);
    var d := Small(Task(Blocked, Some(KB_EVENT)), 0, Doze(ToGetChar));
    var key: byte := 97;
    var d1 := Next(d, Irq(KB_IRQ, key));
    ReachesNext(s0, d, Irq(KB_IRQ, key), d1);
    HaltCanOversleep(d, 0, key);
    s := Next(d1, Step);
    ReachesNext(s0, d1, Step, s);
  }
}
