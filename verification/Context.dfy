/** context_switch (isr.s) as a stack machine, and what a process finds when it gets the CPU
    back. Memory is counted in 32-bit words: an address is a word index. */
module Context {
  import opened Bytes

  // ebp', esp_dummy and the two pushed below them included, a saved context is ten words.
  const FRAME_WORDS: nat := 10

  datatype Regs = Regs(eax: word32, ecx: word32, edx: word32, ebx: word32,
                       esp: word32, ebp: word32, esi: word32, edi: word32)

  type Mem = seq<word32>

  // The CPU after a return: memory, registers, and where execution goes on
  datatype Cpu = Cpu(mem: Mem, r: Regs, eip: word32)

  // ------------------------------------------------------------------
  // What one switch does
  // ------------------------------------------------------------------

  // The words context_switch leaves on the stack of the process it suspends, lowest address
  // first; the last is the return address already there.
  function Saved(r: Regs, ret: word32): (f: seq<word32>)
    requires r.esp > 0
    ensures |f| == FRAME_WORDS
  {
    [r.edi, r.esi, r.esp - 1, r.esp - 1, r.ebx, r.edx, r.ecx, r.eax, r.ebp, ret]
  }

  // On entry: return address on top, then old_esp_store, then new_esp; room for nine words.
  predicate CanSwitch(mem: Mem, r: Regs) {
    && 9 <= r.esp && r.esp + 3 <= |mem|
    && mem[r.esp + 1] < |mem| && mem[r.esp + 2] + FRAME_WORDS <= |mem|
    && !(r.esp - 9 <= mem[r.esp + 1] < r.esp + 3)
  }

  // Memory once the context is saved
  function Suspended(mem: Mem, r: Regs): (m: Mem)
    requires CanSwitch(mem, r)
    ensures |m| == |mem|
    ensures m[r.esp - 9..r.esp + 1] == Saved(r, mem[r.esp])
    ensures m[mem[r.esp + 1]] == r.esp - 9
    ensures forall k :: 0 <= k < |mem| && !(r.esp - 9 <= k < r.esp) && k != mem[r.esp + 1] ==> m[k] == mem[k]
  {
    (mem[..r.esp - 9] + Saved(r, mem[r.esp]) + mem[r.esp + 1..])[mem[r.esp + 1] := r.esp - 9]
  }

  // The registers a saved context restores; the stack pointer ends above it.
  function Restored(f: seq<word32>, at: nat): Regs
    requires |f| == FRAME_WORDS && at + FRAME_WORDS < U32
  {
    Regs(f[7], f[6], f[5], f[4], at + FRAME_WORDS, f[8], f[1], f[0])
  }

  function Switched(mem: Mem, r: Regs): (c: Cpu)
    requires CanSwitch(mem, r) && |mem| < U32
    ensures |c.mem| == |mem|
  {
    var m, at := Suspended(mem, r), mem[r.esp + 2];
    var f := m[at..at + FRAME_WORDS];
    Cpu(m, Restored(f, at), f[9])
  }

  // Four words pushed, and four more
  lemma PushedEight(m: Mem, e: nat, x: seq<word32>, y: seq<word32>)
    requires |x| == |y| == 4 && 8 <= e <= |m|
    ensures var m1 := m[..e - 4] + x + m[e..];
            m1[..e - 8] + y + m1[e - 4..]
            == m[..e - 8] + [y[0], y[1], y[2], y[3], x[0], x[1], x[2], x[3]] + m[e..]
  {
    var m1 := m[..e - 4] + x + m[e..];
    assert m1[..e - 8] == m[..e - 8] && m1[e - 4..] == x + m[e..];
    assert y + x == [y[0], y[1], y[2], y[3], x[0], x[1], x[2], x[3]];
  }

  /** context_switch, instruction by instruction. */
  class Processor {
    const mem: array<word32>
    var eax: word32
    var ecx: word32
    var edx: word32
    var ebx: word32
    var esp: word32
    var ebp: word32
    var esi: word32
    var edi: word32
    var eip: word32

    constructor (mem: array<word32>)
      ensures this.mem == mem
    {
      this.mem := mem;
      eax, ecx, edx, ebx, esp, ebp, esi, edi, eip := 0, 0, 0, 0, 0, 0, 0, 0, 0;
    }

    ghost function R(): Regs
      reads this
    {
      Regs(eax, ecx, edx, ebx, esp, ebp, esi, edi)
    }

    method Push(v: word32)
      requires 0 < esp <= mem.Length
      modifies this`esp, mem
      ensures esp == old(esp) - 1 && mem[..] == old(mem[..])[esp := v]
    {
      esp := esp - 1;
      mem[esp] := v;
    }

    method Pop() returns (v: word32)
      requires esp < mem.Length < U32
      modifies this`esp
      ensures esp == old(esp) + 1 && v == mem[old(esp)]
    {
      v := mem[esp];
      esp := esp + 1;
    }

    method PushFour(a: word32, b: word32, c: word32, d: word32)
      requires 4 <= esp <= mem.Length
      modifies this`esp, mem
      ensures esp == old(esp) - 4
      ensures mem[..] == old(mem[..esp - 4]) + [d, c, b, a] + old(mem[esp..])
    {
      Push(a);
      Push(b);
      Push(c);
      Push(d);
    }

    method Pusha()
      requires 8 <= esp <= mem.Length
      modifies this`esp, mem
      ensures esp == old(esp) - 8
      ensures mem[..] == old(mem[..esp - 8]) + [edi, esi, ebp, old(esp), ebx, edx, ecx, eax] + old(mem[esp..])
    {
      var temp := esp;
      PushedEight(mem[..], esp, [ebx, edx, ecx, eax], [edi, esi, ebp, temp]);
      PushFour(eax, ecx, edx, ebx);
      PushFour(temp, ebp, esi, edi);
    }

    method PopTwo() returns (a: word32, b: word32)
      requires esp + 2 <= mem.Length < U32
      modifies this`esp
      ensures esp == old(esp) + 2 && a == mem[old(esp)] && b == mem[old(esp) + 1]
    {
      a := Pop();
      b := Pop();
    }

    method Popa()
      requires esp + 8 <= mem.Length < U32
      modifies this
      ensures R() == Regs(mem[old(esp) + 7], mem[old(esp) + 6], mem[old(esp) + 5], mem[old(esp) + 4],
                          old(esp) + 8, mem[old(esp) + 2], mem[old(esp) + 1], mem[old(esp)])
      ensures eip == old(eip)
    {
      edi, esi := PopTwo();
      ebp, ebx := PopTwo();  // the saved esp is skipped: ebx is popped next
      ebx, edx := PopTwo();
      ecx, eax := PopTwo();
    }

    // push ebp; mov ebp, esp; pushad
    method PushContext()
      requires 9 <= esp < mem.Length && mem.Length < U32
      modifies this`esp, this`ebp, mem
      ensures esp == old(esp) - 9 && ebp == old(esp) - 1
      ensures mem[..] == old(mem[..esp - 9]) + Saved(old(R()), old(mem[esp])) + old(mem[esp + 1..])
    {
      Push(ebp);
      ebp := esp;
      Pusha();
    }

    // up to storing the stack pointer
    method Save()
      requires CanSwitch(mem[..], R()) && mem.Length < U32
      modifies this, mem
      ensures mem[..] == Suspended(old(mem[..]), old(R())) && ebp == old(esp) - 1
    {
      ghost var m, r := mem[..], R();
      PushContext();
      PushedOver(m, mem[..], r);
      eax := mem[ebp + 2];
      mem[eax] := esp;
    }

    // from loading the new stack pointer on
    method Load(ghost at: nat)
      requires ebp + 3 < mem.Length < U32 && mem[ebp + 3] == at && at + FRAME_WORDS <= mem.Length
      modifies this
      ensures R() == Restored(mem[at..at + FRAME_WORDS], at) && eip == mem[at + 9]
    {
      eax := mem[ebp + 3];
      esp := eax;
      Popa();
      ebp := Pop();
      eip := Pop();
    }

    method ContextSwitch()
      requires CanSwitch(mem[..], R()) && mem.Length < U32
      modifies this, mem
      ensures Cpu(mem[..], R(), eip) == Switched(old(mem[..]), old(R()))
    {
      ghost var m, r, at := mem[..], R(), mem[esp + 2];
      Save();
      LoadsFrom(m, r, at, mem[at..at + FRAME_WORDS]);
      Load(at);
    }

    // The frame proc_create builds at the top of a new stack
    method BuildFrame(top: word32, entry: word32) returns (sp: word32)
      requires FRAME_WORDS <= top <= mem.Length
      modifies mem
      ensures sp == top - FRAME_WORDS && mem[..] == NewFrame(old(mem[..]), top, entry)
    {
      ghost var m := mem[..];
      sp := top - 1;
      mem[sp] := entry;
      for i := 0 to 9
        invariant sp == top - 1 - i && PartFrame(mem[..], m, top, entry, sp)
      {
        sp := sp - 1;
        mem[sp] := 0;
      }
      WholeFrame(mem[..], m, top, entry);
    }
  }

  // The frame built from `top` down to sp
  ghost predicate PartFrame(now: Mem, mem: Mem, top: nat, entry: word32, sp: nat)
    requires 0 < top <= |mem|
  {
    |now| == |mem| && now[top - 1] == entry
    && forall k :: 0 <= k < |mem| && k != top - 1 ==> now[k] == if sp <= k < top then 0 else mem[k]
  }

  lemma WholeFrame(now: Mem, mem: Mem, top: nat, entry: word32)
    requires FRAME_WORDS <= top <= |mem| && PartFrame(now, mem, top, entry, top - FRAME_WORDS)
    ensures now == NewFrame(mem, top, entry)
  {
  }

  // Below the arguments only the nine words pushed have changed.
  lemma PushedOver(mem: Mem, now: Mem, r: Regs)
    requires CanSwitch(mem, r)
    requires now == mem[..r.esp - 9] + Saved(r, mem[r.esp]) + mem[r.esp + 1..]
    ensures |now| == |mem| && now[r.esp + 1] == mem[r.esp + 1] && now[r.esp + 2] == mem[r.esp + 2]
    ensures now[mem[r.esp + 1] := r.esp - 9] == Suspended(mem, r)
  {
  }

  function NewFrame(mem: Mem, top: nat, entry: word32): Mem
    requires FRAME_WORDS <= top <= |mem|
  {
    mem[..top - FRAME_WORDS] + seq(9, _ => 0) + [entry] + mem[top..]
  }

  // ------------------------------------------------------------------
  // Processes taking turns
  // ------------------------------------------------------------------

  // One slot of the process table: where its process's stack lies, the address of its saved
  // stack pointer, and whether the slot is in use. The boot context counts as one more slot.
  datatype Place = Place(lo: nat, hi: nat, store: nat, live: bool)

  // The stacks of live processes are apart, and no saved stack pointer lies on one.
  ghost predicate Layout(places: seq<Place>, words: nat) {
    && words < U32
    && (forall p :: 0 <= p < |places| ==> places[p].store < words)
    && (forall p, q :: 0 <= p < |places| && 0 <= q < |places| && p != q ==> places[p].store != places[q].store)
    && (forall p :: 0 <= p < |places| && places[p].live ==> StackApart(places, p, places[p], words))
  }

  // The stack of pl, for slot p, lies in memory apart from the other live stacks and from
  // every saved stack pointer.
  ghost predicate StackApart(places: seq<Place>, p: nat, pl: Place, words: nat) {
    && pl.lo <= pl.hi <= words
    && (forall q :: 0 <= q < |places| && q != p && places[q].live ==> pl.hi <= places[q].lo || places[q].hi <= pl.lo)
    && (forall q :: 0 <= q < |places| ==> !(pl.lo <= places[q].store < pl.hi))
  }

  // The process table's stacks, the kernel's memory, the registers and the running process
  datatype State = State(places: seq<Place>, mem: Mem, r: Regs, eip: word32, current: nat)

  ghost predicate Sound(s: State) {
    Layout(s.places, |s.mem|) && s.current < |s.places| && s.places[s.current].live
  }

  ghost predicate Alive(s: State, p: nat) {
    p < |s.places| && s.places[p].live
  }

  // The process of pl is suspended with the ten words f on its stack, at `at`.
  ghost predicate Parked(pl: Place, mem: Mem, at: nat, f: seq<word32>) {
    && pl.store < |mem| && pl.hi <= |mem|
    && mem[pl.store] == at && pl.lo <= at && at + FRAME_WORDS <= pl.hi
    && mem[at..at + FRAME_WORDS] == f
  }

  // The running process computes: it may write anything but the stacks and saved stack
  // pointers of the other live processes, and do as it likes with the registers.
  ghost predicate Computes(s: State, s': State) {
    && |s'.mem| == |s.mem| && s'.current == s.current && s'.places == s.places
    && forall q :: 0 <= q < |s.places| && q != s.current && s.places[q].live ==> Untouched(s.places[q], s.mem, s'.mem)
  }

  ghost predicate Untouched(pl: Place, m: Mem, m': Mem)
    requires |m'| == |m|
  {
    && (pl.store < |m| ==> m'[pl.store] == m[pl.store])
    && forall k :: pl.lo <= k < pl.hi && k < |m| ==> m'[k] == m[k]
  }

  // The scheduler has process `to` picked and the running process calls context_switch with
  // &current->esp and to->esp, on its own stack.
  ghost predicate AtSwitch(s: State, to: nat) {
    && s.current < |s.places| && Alive(s, to) && to != s.current
    && CanSwitch(s.mem, s.r) && |s.mem| < U32
    && s.mem[s.r.esp + 1] == s.places[s.current].store
    && s.places[to].store < |s.mem| && s.mem[s.r.esp + 2] == s.mem[s.places[to].store]
    && s.places[s.current].lo <= s.r.esp - 9 && s.r.esp + 1 <= s.places[s.current].hi
  }

  ghost predicate Switches(s: State, s': State, to: nat) {
    AtSwitch(s, to) && s' == var c := Switched(s.mem, s.r); State(s.places, c.mem, c.r, c.eip, to)
  }

  // proc_create by the running process: free slot p gets the stack of pl, which the page
  // allocator keeps apart from the others, with the first frame below `top`.
  ghost predicate Creates(s: State, s': State, p: nat, pl: Place, top: nat, entry: word32) {
    && p < |s.places| && !s.places[p].live && pl.live && pl.store == s.places[p].store < |s.mem|
    && StackApart(s.places, p, pl, |s.mem|) && pl.lo + FRAME_WORDS <= top <= pl.hi && top < U32
    && s'.places == s.places[p := pl] && s'.current == s.current
    && s'.mem == Created(s.mem, pl.store, top, entry)
  }

  // The new frame, and the process's saved stack pointer below it
  function Created(mem: Mem, store: nat, top: nat, entry: word32): (m: Mem)
    requires FRAME_WORDS <= top <= |mem| && top < U32 && store < |mem|
    ensures |m| == |mem|
    ensures forall k :: 0 <= k < |mem| && k != store && !(top - FRAME_WORDS <= k < top) ==> m[k] == mem[k]
  {
    NewFrame(mem, top, entry)[store := top - FRAME_WORDS]
  }

  // proc_kill by the running process: slot p is free again, its stack anybody's.
  ghost predicate Kills(s: State, s': State, p: nat) {
    p < |s.places| && p != s.current && s' == s.(places := s.places[p := s.places[p].(live := false)])
  }

  // What the running process does in one step
  datatype Action =
    | Compute
    | SwitchTo(to: nat)
    | Create(p: nat, place: Place, top: nat, entry: word32)
    | Kill(p: nat)

  ghost predicate Next(s: State, a: Action, s': State) {
    match a
    case Compute => Computes(s, s')
    case SwitchTo(to) => Switches(s, s', to)
    case Create(p, place, top, entry) => Creates(s, s', p, place, top, entry)
    case Kill(p) => Kills(s, s', p)
  }

  // ------------------------------------------------------------------
  // Stacks stay apart
  // ------------------------------------------------------------------

  lemma CreatesKeepsSound(s: State, s': State, p: nat, pl: Place, top: nat, entry: word32)
    requires Sound(s) && Creates(s, s', p, pl, top, entry)
    ensures Sound(s') && |s'.mem| == |s.mem|
  {
    forall q | 0 <= q < |s'.places| && s'.places[q].live
      ensures StackApart(s'.places, q, s'.places[q], |s'.mem|)
    {
      if q != p {
        assert StackApart(s.places, q, s.places[q], |s.mem|);
      }
    }
  }

  lemma KillsKeepsSound(s: State, s': State, p: nat)
    requires Sound(s) && Kills(s, s', p)
    ensures Sound(s') && |s'.mem| == |s.mem|
  {
    forall q | 0 <= q < |s'.places| && s'.places[q].live
      ensures StackApart(s'.places, q, s'.places[q], |s'.mem|)
    {
      assert StackApart(s.places, q, s.places[q], |s.mem|);
    }
  }

  lemma NextKeepsSound(s: State, a: Action, s': State)
    requires Sound(s) && Next(s, a, s')
    ensures Sound(s') && |s'.mem| == |s.mem|
  {
    match a
    case Compute =>
    case SwitchTo(to) => assert s'.places == s.places;
    case Create(p, place, top, entry) => CreatesKeepsSound(s, s', p, place, top, entry);
    case Kill(p) => KillsKeepsSound(s, s', p);
  }

  // ------------------------------------------------------------------
  // Parked contexts
  // ------------------------------------------------------------------

  /** Suspending: the process's context is parked on its own stack. */
  lemma SwitchParks(s: State, s': State, to: nat)
    requires Sound(s) && Switches(s, s', to)
    ensures Parked(s.places[s.current], s'.mem, s.r.esp - 9, Saved(s.r, s.mem[s.r.esp]))
  {
    assert StackApart(s.places, s.current, s.places[s.current], |s.mem|);
  }

  /** Creating: the first frame is parked on the new stack. */
  lemma CreateParks(s: State, s': State, p: nat, pl: Place, top: nat, entry: word32)
    requires Sound(s) && Creates(s, s', p, pl, top, entry)
    ensures Parked(pl, s'.mem, top - FRAME_WORDS, FirstFrame(entry))
  {
    assert s'.mem[top - FRAME_WORDS..top] == NewFrame(s.mem, top, entry)[top - FRAME_WORDS..top];
  }

  function FirstFrame(entry: word32): (f: seq<word32>)
    ensures |f| == FRAME_WORDS
  {
    seq(9, _ => 0) + [entry]
  }

  lemma SameWords(m: Mem, m': Mem, at: nat, n: nat)
    requires at + n <= |m| == |m'| && forall k :: at <= k < at + n ==> m'[k] == m[k]
    ensures m'[at..at + n] == m[at..at + n]
  {
  }

  lemma UntouchedStays(pl: Place, m: Mem, m': Mem, at: nat, f: seq<word32>)
    requires |m'| == |m| && Parked(pl, m, at, f) && Untouched(pl, m, m')
    ensures Parked(pl, m', at, f)
  {
    SameWords(m, m', at, FRAME_WORDS);
  }

  lemma SwitchLeaves(s: State, s': State, to: nat, p: nat)
    requires Sound(s) && Switches(s, s', to) && Alive(s, p) && p != s.current
    ensures |s'.mem| == |s.mem| && Untouched(s.places[p], s.mem, s'.mem)
  {
    var m, c, pl := Suspended(s.mem, s.r), s.places[s.current], s.places[p];
    assert s'.mem == m && s.mem[s.r.esp + 1] == c.store;
    assert StackApart(s.places, s.current, c, |s.mem|) && StackApart(s.places, p, pl, |s.mem|);
    forall k | pl.lo <= k < pl.hi
      ensures m[k] == s.mem[k]
    {
      assert !(c.lo <= k < c.hi) && k != c.store;
    }
    assert !(c.lo <= pl.store < c.hi) && pl.store != c.store;
  }

  lemma CreateLeaves(s: State, s': State, slot: nat, pl: Place, top: nat, entry: word32, p: nat)
    requires Sound(s) && Creates(s, s', slot, pl, top, entry) && Alive(s, p)
    ensures |s'.mem| == |s.mem| && Untouched(s.places[p], s.mem, s'.mem)
  {
    assert StackApart(s.places, p, s.places[p], |s.mem|);
  }

  lemma StepLeaves(s: State, a: Action, s': State, p: nat)
    requires Sound(s) && Next(s, a, s') && p != s.current && Alive(s, p) && Alive(s', p)
    ensures |s'.mem| == |s.mem| && s'.places[p] == s.places[p] && Untouched(s.places[p], s.mem, s'.mem)
  {
    match a
    case Compute =>
    case SwitchTo(to) => SwitchLeaves(s, s', to, p);
    case Create(slot, place, top, entry) => CreateLeaves(s, s', slot, place, top, entry, p);
    case Kill(_) =>
  }

  /** Neither computing nor creating or killing others nor any switch among others touches a
      parked context. */
  lemma ParkedStays(s: State, a: Action, s': State, p: nat, at: nat, f: seq<word32>)
    requires Sound(s) && Next(s, a, s') && p != s.current && Alive(s, p) && Alive(s', p)
    requires Parked(s.places[p], s.mem, at, f)
    ensures s'.places[p] == s.places[p] && Parked(s'.places[p], s'.mem, at, f)
  {
    StepLeaves(s, a, s', p);
    UntouchedStays(s.places[p], s.mem, s'.mem, at, f);
  }

  lemma LoadsFrom(mem: Mem, r: Regs, at: nat, f: seq<word32>)
    requires CanSwitch(mem, r) && |mem| < U32 && mem[r.esp + 2] == at && |f| == FRAME_WORDS
    requires Suspended(mem, r)[at..at + FRAME_WORDS] == f
    ensures Switched(mem, r).r == Restored(f, at) && Switched(mem, r).eip == f[9]
  {
  }

  /** Switching to a process whose context is parked restores exactly that context. */
  lemma SwitchResumes(s: State, s': State, to: nat, at: nat, f: seq<word32>)
    requires Sound(s) && Switches(s, s', to) && Parked(s.places[to], s.mem, at, f) && |f| == FRAME_WORDS
    ensures s'.r == Restored(f, at) && s'.eip == f[9] && s'.current == to
  {
    SwitchLeaves(s, s', to, to);
    UntouchedStays(s.places[to], s.mem, s'.mem, at, f);
    LoadsFrom(s.mem, s.r, at, f);
  }

  // ------------------------------------------------------------------
  // Runs
  // ------------------------------------------------------------------

  // A run: the states, and what led from each to the next
  ghost predicate Trace(run: seq<State>, acts: seq<Action>) {
    |run| == |acts| + 1 && forall i :: 0 <= i < |acts| ==> NextAt(run, acts, i)
  }

  ghost predicate NextAt(run: seq<State>, acts: seq<Action>, i: nat)
    requires i < |acts| && |run| == |acts| + 1
  {
    Next(run[i], acts[i], run[i + 1])
  }

  // Process p is alive and off the CPU from state i to state j.
  ghost predicate Waits(run: seq<State>, i: nat, j: nat, p: nat)
    requires j < |run|
  {
    forall k :: i <= k <= j ==> Alive(run[k], p) && run[k].current != p
  }

  // Process p, off the CPU in state i, is picked in step j for the first time since, and is not
  // killed until then.
  ghost predicate PickedAt(run: seq<State>, acts: seq<Action>, i: nat, j: nat, p: nat)
    requires |run| == |acts| + 1
  {
    i <= j < |acts| && Waits(run, i, j, p) && acts[j] == SwitchTo(p)
  }

  lemma ParkedStep(run: seq<State>, acts: seq<Action>, i: nat, p: nat, at: nat, f: seq<word32>)
    requires Trace(run, acts) && i < |acts| && Sound(run[i])
    requires Alive(run[i], p) && run[i].current != p && Alive(run[i + 1], p)
    requires Parked(run[i].places[p], run[i].mem, at, f)
    ensures Sound(run[i + 1]) && Parked(run[i + 1].places[p], run[i + 1].mem, at, f)
  {
    assert NextAt(run, acts, i);
    NextKeepsSound(run[i], acts[i], run[i + 1]);
    ParkedStays(run[i], acts[i], run[i + 1], p, at, f);
  }

  lemma {:induction false} ParkedAlong(
    run: seq<State>, acts: seq<Action>, i: nat, j: nat, p: nat, at: nat, f: seq<word32>)
    requires Trace(run, acts) && i <= j <= |acts| && Sound(run[i]) && Waits(run, i, j, p)
    requires Parked(run[i].places[p], run[i].mem, at, f)
    ensures Sound(run[j]) && Parked(run[j].places[p], run[j].mem, at, f)
    decreases j - i
  {
    if i == j {
    } else {
      ParkedStep(run, acts, i, p, at, f);
      ParkedAlong(run, acts, i + 1, j, p, at, f);
    }
  }

  lemma SavedRestores(r: Regs, ret: word32)
    requires 9 <= r.esp && r.esp + 1 < U32
    ensures Restored(Saved(r, ret), r.esp - 9) == r.(esp := r.esp + 1) && Saved(r, ret)[9] == ret
  {
  }

  // Being switched away from leaves the context parked, and the others where they were.
  lemma SwitchesAway(s: State, s': State, to: nat)
    requires Sound(s) && Switches(s, s', to)
    ensures 9 <= s.r.esp < |s.mem| && s.r.esp + 1 < U32 && Sound(s') && Alive(s', s.current)
    ensures Parked(s'.places[s.current], s'.mem, s.r.esp - 9, Saved(s.r, s.mem[s.r.esp]))
  {
    SwitchParks(s, s', to);
    NextKeepsSound(s, SwitchTo(to), s');
  }

  lemma ComesBack(s: State, s': State, p: nat, r: Regs, ret: word32)
    requires Sound(s) && Switches(s, s', p) && 9 <= r.esp && r.esp + 1 < U32
    requires Parked(s.places[p], s.mem, r.esp - 9, Saved(r, ret))
    ensures s'.current == p && s'.eip == ret && s'.r == r.(esp := r.esp + 1)
  {
    SwitchResumes(s, s', p, r.esp - 9, Saved(r, ret));
    SavedRestores(r, ret);
  }

  // The registers and the return address of the process that gives up the CPU in step i
  lemma GivesUpAt(run: seq<State>, acts: seq<Action>, i: nat, p: nat) returns (r: Regs, ret: word32)
    requires Trace(run, acts) && i < |acts| && Sound(run[i]) && acts[i].SwitchTo? && p == run[i].current
    ensures r == run[i].r && 9 <= r.esp < |run[i].mem| && r.esp + 1 < U32 && ret == run[i].mem[r.esp]
    ensures Sound(run[i + 1]) && p < |run[i + 1].places|
    ensures Parked(run[i + 1].places[p], run[i + 1].mem, r.esp - 9, Saved(r, ret))
  {
    assert NextAt(run, acts, i);
    r, ret := run[i].r, run[i].mem[run[i].r.esp];
    SwitchesAway(run[i], run[i + 1], acts[i].to);
  }

  lemma ComesBackAt(run: seq<State>, acts: seq<Action>, i: nat, j: nat, p: nat, r: Regs, ret: word32)
    requires Trace(run, acts) && PickedAt(run, acts, i, j, p) && Sound(run[i])
    requires 9 <= r.esp && r.esp + 1 < U32 && Parked(run[i].places[p], run[i].mem, r.esp - 9, Saved(r, ret))
    ensures run[j + 1].current == p && run[j + 1].eip == ret && run[j + 1].r == r.(esp := r.esp + 1)
  {
    ParkedAlong(run, acts, i, j, p, r.esp - 9, Saved(r, ret));
    assert NextAt(run, acts, j);
    ComesBack(run[j], run[j + 1], p, r, ret);
  }

  /** Context preservation over every run: a process that gives up the CPU by calling
      context_switch and, never killed meanwhile, is next picked again goes on at its return
      address with the general registers it had and its stack pointer just past that address,
      whatever the processes in between computed, created or killed and however they switched. */
  lemma ContextPreserved(run: seq<State>, acts: seq<Action>, i: nat, j: nat, p: nat)
    requires Trace(run, acts) && i < |acts| && Sound(run[i]) && acts[i].SwitchTo? && p == run[i].current
    requires PickedAt(run, acts, i + 1, j, p)
    ensures run[i].r.esp < |run[i].mem|
    ensures run[j + 1].current == p && run[j + 1].eip == run[i].mem[run[i].r.esp]
    ensures run[j + 1].r == run[i].r.(esp := run[i].r.esp + 1)
  {
    var r, ret := GivesUpAt(run, acts, i, p);
    ComesBackAt(run, acts, i + 1, j, p, r, ret);
  }

  lemma CreatedAt(run: seq<State>, acts: seq<Action>, i: nat)
    requires Trace(run, acts) && i < |acts| && Sound(run[i]) && acts[i].Create?
    ensures var a, s' := acts[i], run[i + 1];
            && Sound(s') && Alive(s', a.p) && FRAME_WORDS <= a.top < U32
            && Parked(s'.places[a.p], s'.mem, a.top - FRAME_WORDS, FirstFrame(a.entry))
  {
    assert NextAt(run, acts, i);
    var a := acts[i];
    CreatesKeepsSound(run[i], run[i + 1], a.p, a.place, a.top, a.entry);
    CreateParks(run[i], run[i + 1], a.p, a.place, a.top, a.entry);
  }

  lemma StartsAt(run: seq<State>, acts: seq<Action>, i: nat, j: nat, p: nat, top: word32, entry: word32)
    requires Trace(run, acts) && PickedAt(run, acts, i, j, p) && Sound(run[i]) && FRAME_WORDS <= top
    requires Parked(run[i].places[p], run[i].mem, top - FRAME_WORDS, FirstFrame(entry))
    ensures run[j + 1].current == p && run[j + 1].eip == entry
    ensures run[j + 1].r == Regs(0, 0, 0, 0, top, 0, 0, 0)
  {
    ParkedAlong(run, acts, i, j, p, top - FRAME_WORDS, FirstFrame(entry));
    assert NextAt(run, acts, j);
    SwitchResumes(run[j], run[j + 1], p, top - FRAME_WORDS, FirstFrame(entry));
  }

  /** The frame proc_create builds makes the new process's first dispatch start at its entry with
      all general registers zero and the stack empty, whatever happened since its creation. */
  lemma FirstDispatch(run: seq<State>, acts: seq<Action>, i: nat, j: nat)
    requires Trace(run, acts) && i < |acts| && Sound(run[i]) && acts[i].Create?
    requires PickedAt(run, acts, i + 1, j, acts[i].p)
    ensures run[j + 1].current == acts[i].p && run[j + 1].eip == acts[i].entry
    ensures acts[i].top < U32 && run[j + 1].r == Regs(0, 0, 0, 0, acts[i].top, 0, 0, 0)
  {
    CreatedAt(run, acts, i);
    StartsAt(run, acts, i + 1, j, acts[i].p, acts[i].top, acts[i].entry);
  }

  // ------------------------------------------------------------------
  // Switching to oneself
  // ------------------------------------------------------------------

  // The newer process.c also calls context_switch when the process picked is the running one:
  // old_esp_store is its own field and new_esp the value read from it before the call.
  ghost predicate AtSelfSwitch(place: Place, mem: Mem, r: Regs) {
    && CanSwitch(mem, r) && |mem| < U32
    && mem[r.esp + 1] == place.store < |mem| && mem[r.esp + 2] == mem[place.store]
  }

  /** There the process goes on where it was exactly when it called from the same stack depth
      as the last time it was suspended; otherwise it is thrown back to that old context. */
  lemma SelfSwitchPreservesIff(place: Place, mem: Mem, r: Regs)
    requires AtSelfSwitch(place, mem, r)
    ensures var c := Switched(mem, r);
            (c.r == r.(esp := r.esp + 1) && c.eip == mem[r.esp]) <==> mem[place.store] == r.esp - 9
  {
  }

  // ------------------------------------------------------------------
  // A run that loses the context
  // ------------------------------------------------------------------

  const STACK0: Place := Place(10, 40, 0, true)
  const STACK1: Place := Place(40, 70, 1, true)

  function At(esp: word32): Regs {
    Regs(0, 0, 0, 0, esp, 0, 0, 0)
  }

  // mem with the return address and the two arguments of a call to context_switch at esp
  function Calling(mem: Mem, esp: nat, ret: word32, store: word32, newEsp: word32): (m: Mem)
    requires esp + 3 <= |mem|
    ensures |m| == |mem| && m[esp] == ret && m[esp + 1] == store && m[esp + 2] == newEsp
    ensures forall k :: 0 <= k < |mem| && !(esp <= k < esp + 3) ==> m[k] == mem[k]
  {
    mem[esp := ret][esp + 1 := store][esp + 2 := newEsp]
  }

  // What process 0, off the CPU, and process 1 leave in memory
  ghost predicate TwoStacks(s: State, current: nat) {
    s.places == [STACK0, STACK1] && s.current == current && |s.mem| == 80 && s.mem[0] == 21 && Sound(s)
  }

  // Process 0, its stack pointer at 30, creates process 1 ...
  lemma TwoProcesses() returns (s0: State, s1: State)
    ensures Sound(s0) && Next(s0, Create(1, STACK1, 70, 5), s1) && Sound(s1)
    ensures s1.places == [STACK0, STACK1] && s1.current == 0 && s1.r == At(30) && |s1.mem| == 80
    ensures s1.mem[30] == 7 && s1.mem[31] == 0 && s1.mem[32] == 60 == s1.mem[1]
  {
    var mem := Calling(seq(80, _ => 0), 30, 7, 0, 60);
    s0 := State([STACK0, STACK1.(live := false)], mem, At(30), 0, 0);
    assert StackApart(s0.places, 0, STACK0, 80) && StackApart(s0.places, 1, STACK1, 80);
    s1 := State([STACK0, STACK1], Created(mem, 1, 70, 5), At(30), 0, 0);
    assert s1.places == s0.places[1 := STACK1];
    CreatesKeepsSound(s0, s1, 1, STACK1, 70, 5);
  }

  // ... and switches to it.
  lemma ToSecond(s: State) returns (s': State)
    requires Sound(s) && s.places == [STACK0, STACK1] && s.current == 0 && s.r == At(30) && |s.mem| == 80
    requires s.mem[30] == 7 && s.mem[31] == 0 && s.mem[32] == 60 == s.mem[1]
    ensures Next(s, SwitchTo(1), s') && TwoStacks(s', 1) && s'.mem[1] == 60
  {
    var c := Switched(s.mem, s.r);
    s' := State(s.places, c.mem, c.r, c.eip, 1);
    SwitchesAway(s, s', 1);
  }

  // Process 1, on the CPU, switches back to process 0.
  lemma BackToFirst(s: State) returns (s1: State, s2: State)
    requires TwoStacks(s, 1) && s.mem[1] == 60
    ensures Next(s, Compute, s1) && Next(s1, SwitchTo(0), s2) && TwoStacks(s2, 0)
  {
    s1 := s.(mem := Calling(s.mem, 60, 8, 1, 21), r := At(60));
    assert Untouched(STACK0, s.mem, s1.mem);
    NextKeepsSound(s, Compute, s1);
    var c := Switched(s1.mem, s1.r);
    s2 := State(s1.places, c.mem, c.r, c.eip, 0);
    SwitchesAway(s1, s2, 0);
  }

  // Process 0 calls context_switch for itself from deeper on its stack.
  lemma Deeper(s: State) returns (s1: State)
    requires TwoStacks(s, 0)
    ensures Next(s, Compute, s1) && AtSelfSwitch(STACK0, s1.mem, s1.r) && s1.mem[0] != s1.r.esp - 9
  {
    s1 := s.(mem := Calling(s.mem, 20, 9, 0, 21), r := At(20));
    assert Untouched(STACK1, s.mem, s1.mem);
  }

  /** It does get lost: a process creates another, switches to it, is switched back to, and
      then, deeper on its stack, is picked itself - and is not resumed where it called. */
  lemma SelfSwitchLosesContext() returns (run: seq<State>, acts: seq<Action>)
    ensures Trace(run, acts) && |acts| == 5 && Sound(run[0])
    ensures acts == [Create(1, STACK1, 70, 5), SwitchTo(1), Compute, SwitchTo(0), Compute]
    ensures var s := run[5];
            && AtSelfSwitch(STACK0, s.mem, s.r)
            && var c := Switched(s.mem, s.r); !(c.r == s.r.(esp := s.r.esp + 1) && c.eip == s.mem[s.r.esp])
  {
    var s0, s1 := TwoProcesses();
    var s2 := ToSecond(s1);
    var s3, s4 := BackToFirst(s2);
    var s5 := Deeper(s4);
    run, acts := FiveSteps(s0, Create(1, STACK1, 70, 5), s1, SwitchTo(1), s2, Compute, s3, SwitchTo(0), s4, Compute,
                            s5);
    SelfSwitchPreservesIff(STACK0, s5.mem, s5.r);
  }

  lemma FiveSteps(s0: State, a: Action, s1: State, b: Action, s2: State, c: Action, s3: State, d: Action,
                  s4: State, e: Action, s5: State)
    returns (run: seq<State>, acts: seq<Action>)
    requires Next(s0, a, s1) && Next(s1, b, s2) && Next(s2, c, s3) && Next(s3, d, s4) && Next(s4, e, s5)
    ensures Trace(run, acts) && |run| == 6 && run[0] == s0 && run[5] == s5 && acts == [a, b, c, d, e]
  {
    run, acts := [s0, s1, s2, s3, s4, s5], [a, b, c, d, e];
    forall i | 0 <= i < |acts|
      ensures NextAt(run, acts, i)
    {
    }
  }
}
