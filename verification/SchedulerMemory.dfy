/** Runs of the scheduler in one memory with the heap its stacks come from: the frames saved on the stacks
    of waiting tasks survive everything that happens until they are resumed. */
module SchedulerMemory {
  import opened Arithmetic
  import opened Bytes
  import opened Sequences
  import opened HeapBlocks
  import opened HeapMemory
  import HeapRuns
  import opened Scheduling
  import opened SchedulerRuns
  import opened TaskFrames

  /** `Create` is `scheduler_add` of an entry point, `Store` any write of the running code, the pushes of an
      interrupted context included, and `Do` every other event. */
  datatype MemEvent =
    | Create(entry: nat)
    | Store(at: nat, bytes: seq<byte>)
    | Do(event: Event)

  /** The scheduler, all of memory, and for every context (0 is the kernel) the bytes an observer last saw
      between its stack pointer and the top of its stack: when it was interrupted, or when it was created. */
  datatype MemWorld = MemWorld(w: World, mem: seq<byte>, frames: map<int, seq<byte>>)

  // ---------------------------------------------------------------- stacks

  /** Top of the stack of the running context; `kt` is the top of the kernel's. */
  function TopOf(s: Sched, kt: nat): nat {
    if 0 <= s.current < |s.tasks| then s.tasks[s.current].stack + STACK_SIZE else kt
  }

  /** The stack pointer lies in the stack of the running context, and the kernel's stack outside the heap. */
  predicate EspInside(s: Sched, esp: nat, kt: nat, a: nat, e: nat) {
    && esp <= TopOf(s, kt)
    && (if 0 <= s.current < |s.tasks| then s.tasks[s.current].stack <= esp else kt <= a || e <= esp)
  }

  /** Slot `i` is runnable and does not run. */
  predicate Waiting(s: Sched, i: int) {
    IsRunnable(s.tasks, i) && i != s.current
  }

  /** Byte `q` belongs to the saved part of the stack of a waiting context. */
  ghost predicate Saved(s: Sched, kt: nat, q: nat) {
    || (exists i :: Waiting(s, i) && s.tasks[i].esp <= q < s.tasks[i].stack + STACK_SIZE)
    || (s.current >= 0 && s.kernelEsp <= q < kt)
  }

  // ---------------------------------------------------------------- steps

  function HeapOf(w: World): HeapRuns.HeapState {
    HeapRuns.HeapState(w.s.heap, w.live)
  }

  /** The running code stays inside its stack, and writes neither to headers of the heap nor to what waiting
      contexts have saved. */
  ghost predicate AllowedIn(m: MemWorld, kt: nat, a: nat, e: nat, ev: MemEvent) {
    match ev
    case Create(entry) => entry < TWO32
    case Store(at, bytes) =>
      at + |bytes| <= |m.mem| &&
      forall q :: at <= q < at + |bytes| ==> !InHeaders(m.w.s.heap, q) && !Saved(m.w.s, kt, q)
    case Do(event) =>
      !event.Add? && Allowed(m.w, event) && (Interrupting(m.w.s, event) ==> EspInside(m.w.s, event.esp, kt, a, e))
  }

  /** Memory after an event that is not `Create` or `Store`: only the heap writes to it. */
  function MemoryAfter(w: World, mem: seq<byte>, event: Event): (r: seq<byte>)
    requires w.s.count <= |w.s.tasks|
    ensures |r| == |mem|
  {
    match event
    case WaitCall(pid) =>
      var i := ZombieSlot(w.s, pid, 0);
      if i == w.s.count then mem else FreeMemory(mem, w.s.heap, w.s.tasks[i].stack)
    case Other(op) => HeapRuns.StepMemory(mem, HeapOf(w), op)
    case _ => mem
  }

  /** The bytes from `lo` up to `hi`. */
  function Segment(mem: seq<byte>, lo: nat, hi: nat): seq<byte> {
    if lo <= hi <= |mem| then mem[lo..hi] else []
  }

  function StepIn(m: MemWorld, kt: nat, ev: MemEvent): MemWorld
    requires -1 <= m.w.s.current < |m.w.s.tasks| && m.w.s.count <= |m.w.s.tasks| && (ev.Do? ==> Allowed(m.w, ev.event))
  {
    match ev
    case Create(entry) =>
      if entry == 0 || AddedPid(m.w.s) == -1 then m
      else
        var p, mem' := Malloc(m.w.s.heap, STACK_SIZE).ptr, Created(m.mem, m.w.s.heap, entry);
        MemWorld(Step(m.w, Add), mem', m.frames[m.w.s.nextPid := Segment(mem', InitialEsp(p), p + STACK_SIZE)])
    case Store(at, bytes) => m.(mem := if at + |bytes| <= |m.mem| then Patched(m.mem, at, bytes) else m.mem)
    case Do(event) =>
      MemWorld(Step(m.w, event), MemoryAfter(m.w, m.mem, event),
               if Interrupting(m.w.s, event) then
                 m.frames[ContextId(m.w.s) := Segment(m.mem, event.esp, TopOf(m.w.s, kt))]
               else m.frames)
  }

  // ---------------------------------------------------------------- the invariant

  /** What the observer saw is still there. */
  ghost predicate TaskIntact(t: Task, mem: seq<byte>, frames: map<int, seq<byte>>) {
    && t.pid in frames && t.stack <= t.esp <= t.stack + STACK_SIZE <= |mem|
    && mem[t.esp..t.stack + STACK_SIZE] == frames[t.pid]
  }

  ghost predicate KernelIntact(s: Sched, mem: seq<byte>, frames: map<int, seq<byte>>, kt: nat, a: nat, e: nat) {
    && 0 in frames && s.kernelEsp <= kt <= |mem| && (kt <= a || e <= s.kernelEsp)
    && mem[s.kernelEsp..kt] == frames[0]
  }

  ghost predicate Intact(s: Sched, mem: seq<byte>, frames: map<int, seq<byte>>, kt: nat, a: nat, e: nat) {
    && (forall i :: Waiting(s, i) ==> TaskIntact(s.tasks[i], mem, frames))
    && (s.current >= 0 ==> KernelIntact(s, mem, frames, kt, a, e))
  }

  ghost predicate MemInv(m: MemWorld, kt: nat, a: nat, e: nat) {
    && -1 <= m.w.s.current < |m.w.s.tasks| && m.w.s.count <= |m.w.s.tasks| && kt <= TWO32
    && WorldInv(m.w, a, e)
    && HeapRuns.InMemory(m.mem, HeapOf(m.w), a, e)
    && Intact(m.w.s, m.mem, m.frames, kt, a, e)
  }

  lemma {:induction false} WorldShape(w: World, a: nat, e: nat)
    requires WorldInv(w, a, e)
    ensures -1 <= w.s.current < |w.s.tasks| && w.s.count <= |w.s.tasks| && (!w.s.enabled ==> w.s.current == -1)
    ensures Inv(w.s)
  {
  }

  /** The stack of a live slot lies in the heap. */
  lemma {:induction false} StackInside(w: World, a: nat, e: nat, i: nat)
    requires WorldInv(w, a, e) && i < |w.s.tasks| && w.s.tasks[i].state != Unused
    ensures var p := w.s.tasks[i].stack;
      p in w.live && p != 0 && w.live[p] == STACK_SIZE && a <= p && p + STACK_SIZE <= e
  {
    hide Inv, HeapRuns.Inv, SavedIsSeen, Reaping;
    HeapRuns.LiveApart(HeapOf(w), a, e, w.s.tasks[i].stack, w.s.tasks[i].stack);
  }

  lemma {:induction false} CurrentStack(w: World, a: nat, e: nat)
    requires WorldInv(w, a, e)
    ensures -1 <= w.s.current < |w.s.tasks|
    ensures w.s.current >= 0 ==> w.s.tasks[w.s.current].stack + STACK_SIZE <= e
  {
    if w.s.current >= 0 {
      StackInside(w, a, e, w.s.current);
    }
  }

  /** A new stack lies in the heap, apart from all live payloads. */
  lemma {:induction false} NewStack(h: HeapRuns.HeapState, a: nat, e: nat)
    requires HeapRuns.Inv(h, a, e) && Malloc(h.blocks, STACK_SIZE).ptr != 0
    ensures var p := Malloc(h.blocks, STACK_SIZE).ptr;
      && a <= p && p + STACK_SIZE <= e && p !in h.live
      && HeapRuns.Step(h, HeapRuns.Alloc(STACK_SIZE)).live == h.live[p := STACK_SIZE]
      && HeapRuns.Inv(HeapRuns.Step(h, HeapRuns.Alloc(STACK_SIZE)), a, e)
      && forall r :: r in h.live && h.live[r] <= HeapRuns.MAX_REQUEST ==> r + h.live[r] <= p || p + STACK_SIZE <= r
  {
    var h', p := HeapRuns.Step(h, HeapRuns.Alloc(STACK_SIZE)), Malloc(h.blocks, STACK_SIZE).ptr;
    HeapRuns.FreshPointer(h, a, e, STACK_SIZE);
    HeapRuns.AllocStep(h, a, e, STACK_SIZE);
    hide HeapRuns.Inv, Malloc;
    HeapRuns.LiveApart(h', a, e, p, p);
    forall r | r in h.live && h.live[r] <= HeapRuns.MAX_REQUEST
      ensures r + h.live[r] <= p || p + STACK_SIZE <= r
    {
      HeapRuns.LiveApart(h', a, e, p, r);
    }
  }

  // ---------------------------------------------------------------- what keeps the frames

  /** Slot `i` waited before as it does now, and its frame is the one seen before. */
  ghost predicate KeptSlot(s: Sched, t: Sched, i: int, frames: map<int, seq<byte>>, frames': map<int, seq<byte>>) {
    && Waiting(s, i) && i < |t.tasks| && t.tasks[i] == s.tasks[i]
    && (s.tasks[i].pid in frames ==> s.tasks[i].pid in frames' && frames'[s.tasks[i].pid] == frames[s.tasks[i].pid])
  }

  /** The same contexts run and wait, or fewer wait. */
  ghost predicate SameWaiting(s: Sched, t: Sched) {
    && t.current == s.current && t.kernelEsp == s.kernelEsp
    && forall i :: Waiting(t, i) ==> Waiting(s, i) && t.tasks[i] == s.tasks[i]
  }

  /** The stacks of waiting tasks are live. */
  ghost predicate StacksStay(s: Sched, live: map<nat, nat>) {
    forall i :: Waiting(s, i) ==> s.tasks[i].stack in live && live[s.tasks[i].stack] == STACK_SIZE
  }

  ghost predicate KeptKernel(s: Sched, t: Sched, frames: map<int, seq<byte>>, frames': map<int, seq<byte>>) {
    && s.current >= 0 && t.kernelEsp == s.kernelEsp
    && (0 in frames ==> 0 in frames' && frames'[0] == frames[0])
  }

  /** A waiting context keeps its frame when its bytes are kept. */
  lemma {:induction false} KeptIsIntact(s: Sched, t: Sched, mem: seq<byte>, mem': seq<byte>,
                                        frames: map<int, seq<byte>>, frames': map<int, seq<byte>>,
                                        kt: nat, a: nat, e: nat)
    requires Intact(s, mem, frames, kt, a, e) && |mem'| == |mem|
    requires forall q :: 0 <= q < |mem| && Saved(s, kt, q) ==> mem'[q] == mem[q]
    ensures forall i :: KeptSlot(s, t, i, frames, frames') ==> TaskIntact(t.tasks[i], mem', frames')
    ensures KeptKernel(s, t, frames, frames') ==> KernelIntact(t, mem', frames', kt, a, e)
  {
    forall i | KeptSlot(s, t, i, frames, frames')
      ensures TaskIntact(t.tasks[i], mem', frames')
    {
      var k := s.tasks[i];
      assert TaskIntact(k, mem, frames);
      assert forall q :: k.esp <= q < k.stack + STACK_SIZE ==> Saved(s, kt, q);
      SameSlice(mem, mem', k.esp, k.stack + STACK_SIZE);
    }
    if KeptKernel(s, t, frames, frames') {
      assert forall q :: s.kernelEsp <= q < kt ==> Saved(s, kt, q);
      SameSlice(mem, mem', s.kernelEsp, kt);
    }
  }

  /** A saved byte lies in the stack of a waiting task, which is live, or outside the heap. */
  lemma {:induction false} SavedPlace(m: MemWorld, kt: nat, a: nat, e: nat, q: nat) returns (i: int)
    requires MemInv(m, kt, a, e) && Saved(m.w.s, kt, q)
    ensures q < TWO32
    ensures i != -1 ==>
      && Waiting(m.w.s, i) && m.w.s.tasks[i].stack in m.w.live && m.w.live[m.w.s.tasks[i].stack] == STACK_SIZE
      && m.w.s.tasks[i].stack <= q < m.w.s.tasks[i].stack + STACK_SIZE
    ensures i == -1 ==> !(a <= q < e)
  {
    var s := m.w.s;
    assert e < TWO32;
    hide WorldInv, HeapRuns.InMemory;
    if k :| Waiting(s, k) && s.tasks[k].esp <= q < s.tasks[k].stack + STACK_SIZE {
      StackInside(m.w, a, e, k);
      assert TaskIntact(s.tasks[k], m.mem, m.frames);
      i := k;
    } else {
      assert KernelIntact(s, m.mem, m.frames, kt, a, e);
      i := -1;
    }
  }

  /** Heap operations keep the saved bytes of every context whose stack stays live. */
  lemma {:induction false} HeapKeepsSaved(m: MemWorld, kt: nat, a: nat, e: nat, op: HeapRuns.Op, q: nat)
    requires MemInv(m, kt, a, e) && HeapRuns.Allowed(HeapOf(m.w), op) && Saved(m.w.s, kt, q)
    requires StacksStay(m.w.s, HeapRuns.Step(HeapOf(m.w), op).live)
    ensures q < TWO32 && HeapRuns.StepMemory(m.mem, HeapOf(m.w), op)[q] == m.mem[q]
  {
    var i := SavedPlace(m, kt, a, e, q);
    hide WorldInv, HeapRuns.InMemory, HeapRuns.Step, HeapRuns.StepMemory, Intact, Saved;
    if i != -1 {
      HeapRuns.LiveBytesKept(m.mem, HeapOf(m.w), a, e, op, m.w.s.tasks[i].stack, q);
    } else {
      HeapRuns.OutsideBytesKept(m.mem, HeapOf(m.w), a, e, op, q);
    }
  }

  // ---------------------------------------------------------------- the steps

  /** Contexts are told apart by their pids. */
  lemma {:induction false} OtherContext(s: Sched, i: int)
    requires Inv(s) && IsRunnable(s.tasks, i) && i != s.current
    ensures s.tasks[i].pid != ContextId(s)
  {
  }

  lemma {:induction false} KernelContext(s: Sched)
    requires Inv(s) && s.current >= 0
    ensures ContextId(s) != 0
  {
  }

  /** The slots after an interrupt, with what was seen of the interrupted context. */
  lemma {:induction false} InterruptedFrames(s: Sched, ev: Event, t: Sched, mem: seq<byte>, frames: map<int, seq<byte>>,
                                             kt: nat, a: nat, e: nat)
    requires Inv(s) && Interrupting(s, ev) && SlotsAfter(s, ev, t) && Intact(s, mem, frames, kt, a, e)
    requires t.kernelEsp == if s.current == -1 then ev.esp else s.kernelEsp
    requires EspInside(s, ev.esp, kt, a, e) && TopOf(s, kt) <= |mem|
    ensures var frames' := frames[ContextId(s) := Segment(mem, ev.esp, TopOf(s, kt))];
      && (forall i :: IsRunnable(t.tasks, i) ==> TaskIntact(t.tasks[i], mem, frames'))
      && KernelIntact(t, mem, frames', kt, a, e)
  {
    var frames' := frames[ContextId(s) := Segment(mem, ev.esp, TopOf(s, kt))];
    hide PidsDistinct, CountRunnable;
    KeptIsIntact(s, t, mem, mem, frames, frames', kt, a, e);
    forall i | IsRunnable(t.tasks, i)
      ensures TaskIntact(t.tasks[i], mem, frames')
    {
      if i == s.current {
        assert t.tasks[i] == s.tasks[i].(esp := ev.esp);
      } else {
        assert IsRunnable(s.tasks, i);
        OtherContext(s, i);
        assert KeptSlot(s, t, i, frames, frames');
      }
    }
    if s.current >= 0 {
      KernelContext(s);
      assert KeptKernel(s, t, frames, frames');
    }
  }

  /** An interrupt writes nothing, and afterwards every runnable context has its frame, the one that now runs
      included. */
  lemma {:induction false} InterruptFrames(m: MemWorld, kt: nat, a: nat, e: nat, ev: Event)
    requires MemInv(m, kt, a, e) && AllowedIn(m, kt, a, e, Do(ev)) && Interrupting(m.w.s, ev)
    ensures var m' := StepIn(m, kt, Do(ev));
      && m'.mem == m.mem && m'.w == Step(m.w, ev)
      && (forall i :: IsRunnable(m'.w.s.tasks, i) ==> TaskIntact(m'.w.s.tasks[i], m.mem, m'.frames))
      && KernelIntact(m'.w.s, m.mem, m'.frames, kt, a, e)
  {
    InterruptEffect(m.w.s, ev);
    CurrentStack(m.w, a, e);
    hide WorldInv, Intact, Inv, SlotsAfter, Resumed, TaskIntact, KernelIntact, EspInside;
    InterruptedFrames(m.w.s, ev, Resumed(m.w.s, ev).s, m.mem, m.frames, kt, a, e);
  }

  lemma {:induction false} InterruptKeeps(m: MemWorld, kt: nat, a: nat, e: nat, ev: Event)
    requires MemInv(m, kt, a, e) && AllowedIn(m, kt, a, e, Do(ev)) && Interrupting(m.w.s, ev)
    ensures MemInv(StepIn(m, kt, Do(ev)), kt, a, e)
  {
    InterruptFrames(m, kt, a, e, ev);
    InterruptStep(m.w, a, e, ev);
    InterruptEffect(m.w.s, ev);
    hide WorldInv, Inv, HeapRuns.Inv, Linked, Resumed, TaskIntact, KernelIntact;
  }

  /** Nothing but bytes that belong to nobody changed, and nobody began to wait. */
  lemma {:induction false} StillIntact(s: Sched, t: Sched, mem: seq<byte>, mem': seq<byte>,
                                       frames: map<int, seq<byte>>, kt: nat, a: nat, e: nat)
    requires Intact(s, mem, frames, kt, a, e) && |mem'| == |mem|
    requires forall q :: 0 <= q < |mem| && Saved(s, kt, q) ==> mem'[q] == mem[q]
    requires SameWaiting(s, t)
    ensures Intact(t, mem', frames, kt, a, e)
  {
    KeptIsIntact(s, t, mem, mem', frames, frames, kt, a, e);
    assert forall i :: Waiting(t, i) ==> KeptSlot(s, t, i, frames, frames);
    assert s.current >= 0 ==> KeptKernel(s, t, frames, frames);
  }

  /** A step that is one heap operation. */
  lemma {:induction false} HeapKeeps(m: MemWorld, w': World, kt: nat, a: nat, e: nat, op: HeapRuns.Op)
    requires MemInv(m, kt, a, e) && HeapRuns.Allowed(HeapOf(m.w), op)
    requires WorldInv(w', a, e) && HeapOf(w') == HeapRuns.Step(HeapOf(m.w), op)
    requires SameWaiting(m.w.s, w'.s) && StacksStay(m.w.s, w'.live)
    ensures MemInv(MemWorld(w', HeapRuns.StepMemory(m.mem, HeapOf(m.w), op), m.frames), kt, a, e)
  {
    var s, mem' := m.w.s, HeapRuns.StepMemory(m.mem, HeapOf(m.w), op);
    WorldShape(w', a, e);
    hide WorldInv, Intact, Saved, HeapRuns.Step, HeapRuns.StepMemory, SameWaiting, StacksStay, Linked, HeapRuns.Inv;
    HeapRuns.StepInMemory(m.mem, HeapOf(m.w), a, e, op);
    forall q | 0 <= q < |m.mem| && Saved(s, kt, q)
      ensures mem'[q] == m.mem[q]
    {
      HeapKeepsSaved(m, kt, a, e, op, q);
    }
    StillIntact(s, w'.s, m.mem, mem', m.frames, kt, a, e);
  }

  lemma {:induction false} OtherKeeps(m: MemWorld, kt: nat, a: nat, e: nat, op: HeapRuns.Op)
    requires MemInv(m, kt, a, e) && AllowedIn(m, kt, a, e, Do(Other(op)))
    ensures MemInv(StepIn(m, kt, Do(Other(op))), kt, a, e)
  {
    OtherStep(m.w, a, e, op);
    OtherHeapStep(m.w.s, m.w.live, a, e, op);
    StacksAreStacks(m.w, Step(m.w, Other(op)).live, a, e);
    hide WorldInv, Intact, HeapRuns.Step, HeapRuns.StepMemory, StacksStay, HeapRuns.InMemory;
    HeapKeeps(m, Step(m.w, Other(op)), kt, a, e, op);
  }

  lemma {:induction false} StacksAreStacks(w: World, live': map<nat, nat>, a: nat, e: nat)
    requires WorldInv(w, a, e) && forall p :: p in w.live && IsStack(w.s, p) ==> p in live' && live'[p] == w.live[p]
    ensures StacksStay(w.s, live')
  {
    forall i | Waiting(w.s, i)
      ensures w.s.tasks[i].stack in live' && live'[w.s.tasks[i].stack] == STACK_SIZE
    {
      StackInside(w, a, e, i);
      assert IsStack(w.s, w.s.tasks[i].stack);
    }
  }

  /** A successful wait is one `kfree`, and the slots that wait and their stacks are as before. */
  lemma {:induction false} WaitedSlots(w: World, a: nat, e: nat, pid: int, i: nat)
    requires WorldInv(w, a, e) && i == ZombieSlot(w.s, pid, 0) && i < w.s.count
    ensures var w', op := Step(w, WaitCall(pid)), HeapRuns.Release(w.s.tasks[i].stack);
      && WorldInv(w', a, e) && HeapRuns.Allowed(HeapOf(w), op) && HeapOf(w') == HeapRuns.Step(HeapOf(w), op)
      && SameWaiting(w.s, w'.s) && StacksStay(w.s, w'.live)
  {
    WaitStep(w, a, e, pid);
    WaitedWorld(w, pid);
    WaitKeepsInv(w.s, pid);
    StackInside(w, a, e, i);
    hide WorldInv, Inv, Step, Wait, ZombieSlot, Free, StacksStay, SameWaiting, Cleared;
    WaitersOfCleared(w.s, Wait(w.s, pid), i);
    StacksButOne(w, a, e, i);
  }

  lemma {:induction false} WaitersOfCleared(s: Sched, t: Sched, i: nat)
    requires Cleared(s, t, i)
    ensures SameWaiting(s, t)
  {
  }

  lemma {:induction false} StacksButOne(w: World, a: nat, e: nat, i: nat)
    requires WorldInv(w, a, e) && i < |w.s.tasks| && w.s.tasks[i].state == Zombie
    ensures StacksStay(w.s, w.live - {w.s.tasks[i].stack})
  {
    forall k | Waiting(w.s, k)
      ensures w.s.tasks[k].stack in w.live - {w.s.tasks[i].stack} && w.live[w.s.tasks[k].stack] == STACK_SIZE
    {
      StackInside(w, a, e, k);
      hide Inv, HeapRuns.Inv, SavedIsSeen, Reaping;
      assert w.s.tasks[k].stack != w.s.tasks[i].stack;
    }
  }

  lemma {:induction false} StepOfWait(m: MemWorld, kt: nat, a: nat, e: nat, pid: int, i: nat)
    requires MemInv(m, kt, a, e) && i == ZombieSlot(m.w.s, pid, 0) && i < m.w.s.count
    ensures var mem' := HeapRuns.StepMemory(m.mem, HeapOf(m.w), HeapRuns.Release(m.w.s.tasks[i].stack));
      StepIn(m, kt, Do(WaitCall(pid))) == MemWorld(Step(m.w, WaitCall(pid)), mem', m.frames)
  {
    hide WorldInv, Intact, HeapRuns.InMemory, Step, FreeMemory, ZombieSlot;
  }

  lemma {:induction false} WaitKeeps(m: MemWorld, kt: nat, a: nat, e: nat, pid: int)
    requires MemInv(m, kt, a, e)
    ensures MemInv(StepIn(m, kt, Do(WaitCall(pid))), kt, a, e)
  {
    var i := ZombieSlot(m.w.s, pid, 0);
    if i < m.w.s.count {
      WaitedSlots(m.w, a, e, pid, i);
      StepOfWait(m, kt, a, e, pid, i);
      hide WorldInv, Intact, HeapRuns.Step, Step, ZombieSlot, SameWaiting, StacksStay, HeapRuns.InMemory, StepIn, HeapRuns.StepMemory;
      HeapKeeps(m, Step(m.w, WaitCall(pid)), kt, a, e, HeapRuns.Release(m.w.s.tasks[i].stack));
    }
  }

  lemma {:induction false} StoreKeeps(m: MemWorld, kt: nat, a: nat, e: nat, at: nat, bytes: seq<byte>)
    requires MemInv(m, kt, a, e) && AllowedIn(m, kt, a, e, Store(at, bytes))
    ensures MemInv(StepIn(m, kt, Store(at, bytes)), kt, a, e)
  {
    var mem' := Patched(m.mem, at, bytes);
    PatchedSame(m.mem, at, bytes);
    hide WorldInv, Intact, Saved, InHeaders, Patched, HeapRuns.Inv, Linked, Waiting;
    HeapRuns.PayloadWriteKeepsHeap(m.mem, mem', HeapOf(m.w), a, e);
    StillIntact(m.w.s, m.w.s, m.mem, mem', m.frames, kt, a, e);
  }

  lemma {:induction false} FlagKeeps(m: MemWorld, kt: nat, a: nat, e: nat, ev: Event)
    requires MemInv(m, kt, a, e) && Allowed(m.w, ev) && (ev.RaiseStart? || ev.Want?)
    ensures MemInv(StepIn(m, kt, Do(ev)), kt, a, e)
  {
    hide WorldInv, HeapRuns.InMemory, Intact, Step, SameWaiting, Allowed;
    FlagStep(m.w, a, e, ev);
    WorldShape(m.w, a, e);
    FlagWaiting(m.w, ev);
    WorldShape(Step(m.w, ev), a, e);
    StillIntact(m.w.s, Step(m.w, ev).s, m.mem, m.mem, m.frames, kt, a, e);
  }

  lemma {:induction false} FlagWaiting(w: World, ev: Event)
    requires -1 <= w.s.current < |w.s.tasks| && w.s.count <= |w.s.tasks| && Allowed(w, ev) && (ev.RaiseStart? || ev.Want?)
    requires !w.s.enabled ==> w.s.current == -1
    ensures HeapOf(Step(w, ev)) == HeapOf(w) && SameWaiting(w.s, Step(w, ev).s)
  {
  }

  // ---------------------------------------------------------------- a new task

  /** `scheduler_add` leaves the heap readable and writes only headers and the new stack, where the frame now
      starts the task at its entry point. */
  lemma {:induction false} CreatedMemory(mem: seq<byte>, h: HeapRuns.HeapState, a: nat, e: nat, entry: nat)
    requires HeapRuns.InMemory(mem, h, a, e) && Malloc(h.blocks, STACK_SIZE).ptr != 0 && entry < TWO32
    ensures var p, op := Malloc(h.blocks, STACK_SIZE).ptr, HeapRuns.Alloc(STACK_SIZE);
      && p + STACK_SIZE <= |mem|
      && HeapRuns.InMemory(Created(mem, h.blocks, entry), HeapRuns.Step(h, op), a, e)
      && StartsAt(Created(mem, h.blocks, entry), InitialEsp(p), entry)
      && SameExcept(HeapRuns.StepMemory(mem, h, op), Created(mem, h.blocks, entry), p, p + STACK_SIZE)
  {
    var p, op, h' := Malloc(h.blocks, STACK_SIZE).ptr, HeapRuns.Alloc(STACK_SIZE), HeapRuns.Step(h, HeapRuns.Alloc(STACK_SIZE));
    NewStack(h, a, e);
    HeapRuns.StepInMemory(mem, h, a, e, op);
    hide Malloc, AllocMemory, HeapRuns.Inv, HeapRuns.Step, Pushed, Linked, InHeaders, StartsAt;
    var mem1 := AllocMemory(mem, h.blocks, STACK_SIZE);
    FrameStarts(mem1, InitialEsp(p), entry);
    PushedWords(mem1, InitialEsp(p), InitialFrame(entry));
    forall q | 0 <= q < |mem| && InHeaders(h'.blocks, q)
      ensures Created(mem, h.blocks, entry)[q] == mem1[q]
    {
      if p <= q < p + STACK_SIZE {
        HeapRuns.LiveClearOfHeaders(h', a, e, p, q);
      }
    }
    HeapRuns.PayloadWriteKeepsHeap(mem1, Created(mem, h.blocks, entry), h', a, e);
  }

  /** What waiting contexts have saved lies outside the new stack. */
  lemma {:induction false} SavedOutside(m: MemWorld, kt: nat, a: nat, e: nat, q: nat)
    requires MemInv(m, kt, a, e) && Malloc(m.w.s.heap, STACK_SIZE).ptr != 0 && Saved(m.w.s, kt, q)
    ensures var p := Malloc(m.w.s.heap, STACK_SIZE).ptr; !(p <= q < p + STACK_SIZE)
    ensures q < TWO32
  {
    hide HeapRuns.Inv, Malloc, HeapRuns.Step, Saved, Intact, Inv, SavedIsSeen, Reaping, StacksOwned, Linked;
    NewStack(HeapOf(m.w), a, e);
    var i := SavedPlace(m, kt, a, e, q);
  }

  /** The contexts after `scheduler_add`: those that waited, and the new task. */
  lemma {:induction false} CreatedFrames(s: Sched, t: Sched, i: nat, p: nat, mem: seq<byte>, mem': seq<byte>,
                                         frames: map<int, seq<byte>>, kt: nat, a: nat, e: nat)
    requires Inv(s) && Filled(s, t, i, p) && Intact(s, mem, frames, kt, a, e) && |mem'| == |mem| && p + STACK_SIZE <= |mem|
    requires forall q :: 0 <= q < |mem| && Saved(s, kt, q) ==> mem'[q] == mem[q]
    ensures Intact(t, mem', frames[s.nextPid := Segment(mem', InitialEsp(p), p + STACK_SIZE)], kt, a, e)
  {
    var frames' := frames[s.nextPid := Segment(mem', InitialEsp(p), p + STACK_SIZE)];
    KeptIsIntact(s, t, mem, mem', frames, frames', kt, a, e);
    forall k | Waiting(t, k)
      ensures TaskIntact(t.tasks[k], mem', frames')
    {
      if k != i {
        assert t.tasks[k] == s.tasks[k] && s.tasks[k].pid < s.nextPid;
        assert KeptSlot(s, t, k, frames, frames');
      }
    }
    assert s.current >= 0 ==> KeptKernel(s, t, frames, frames');
  }

  lemma {:induction false} StacksAndOne(w: World, a: nat, e: nat, p: nat)
    requires WorldInv(w, a, e) && p !in w.live
    ensures StacksStay(w.s, w.live[p := STACK_SIZE])
  {
    forall i | Waiting(w.s, i)
      ensures w.s.tasks[i].stack in w.live && w.live[w.s.tasks[i].stack] == STACK_SIZE
    {
      StackInside(w, a, e, i);
    }
  }

  lemma {:induction false} CreatedBytes(m: MemWorld, kt: nat, a: nat, e: nat, entry: nat, q: nat)
    requires MemInv(m, kt, a, e) && entry < TWO32 && Malloc(m.w.s.heap, STACK_SIZE).ptr != 0 && Saved(m.w.s, kt, q)
    requires Malloc(m.w.s.heap, STACK_SIZE).ptr + STACK_SIZE <= |m.mem|
    ensures q < |m.mem| && Created(m.mem, m.w.s.heap, entry)[q] == m.mem[q]
  {
    hide Malloc, Created, HeapRuns.Inv, HeapRuns.Step, HeapRuns.StepMemory, StartsAt, Saved, Intact, StacksStay, Linked;
    hide Inv, SavedIsSeen, Reaping, StacksOwned;
    NewStack(HeapOf(m.w), a, e);
    StacksAndOne(m.w, a, e, Malloc(m.w.s.heap, STACK_SIZE).ptr);
    CreatedMemory(m.mem, HeapOf(m.w), a, e, entry);
    SavedOutside(m, kt, a, e, q);
    HeapKeepsSaved(m, kt, a, e, HeapRuns.Alloc(STACK_SIZE), q);
  }

  lemma {:induction false} CreateKeeps(m: MemWorld, kt: nat, a: nat, e: nat, entry: nat)
    requires MemInv(m, kt, a, e) && entry < TWO32
    ensures MemInv(StepIn(m, kt, Create(entry)), kt, a, e)
  {
    if entry != 0 && AddedPid(m.w.s) != -1 {
      var s, p := m.w.s, Malloc(m.w.s.heap, STACK_SIZE).ptr;
      hide WorldInv, Intact, Malloc, FirstUnused, Filled, Created, HeapRuns.InMemory, StartsAt, Saved, Inv, Step, HeapRuns.Step;
      AddStep(m.w, a, e);
      WorldShape(m.w, a, e);
      WorldShape(Step(m.w, Add), a, e);
      AddKeepsInv(s);
      CreatedMemory(m.mem, HeapOf(m.w), a, e, entry);
      AddedWorld(m.w);
      var mem' := Created(m.mem, s.heap, entry);
      forall q | 0 <= q < |m.mem| && Saved(s, kt, q)
        ensures mem'[q] == m.mem[q]
      {
        CreatedBytes(m, kt, a, e, entry, q);
      }
      CreatedFrames(s, AddTask(s), FirstUnused(s.tasks), p, m.mem, mem', m.frames, kt, a, e);
    }
  }

  lemma {:induction false} AddedWorld(w: World)
    requires -1 <= w.s.current < |w.s.tasks| && w.s.count <= |w.s.tasks| && AddedPid(w.s) != -1
    ensures var op := HeapRuns.Alloc(STACK_SIZE);
      Step(w, Add).s == AddTask(w.s) && HeapOf(Step(w, Add)) == HeapRuns.Step(HeapOf(w), op)
  {
    hide Malloc, FirstUnused;
  }

  /** The task with this pid has not run yet, and the frame on its stack starts it at this entry point. */
  ghost predicate Fresh(m: MemWorld, pid: int, entry: nat) {
    exists i :: Waiting(m.w.s, i) && FreshTask(m.w.s.tasks[i], m.mem, pid, entry)
  }

  ghost predicate FreshTask(t: Task, mem: seq<byte>, pid: int, entry: nat) {
    t.pid == pid && t.esp == InitialEsp(t.stack) && StartsAt(mem, t.esp, entry)
  }

  lemma {:induction false} CreateIsFresh(m: MemWorld, kt: nat, a: nat, e: nat, entry: nat)
    requires MemInv(m, kt, a, e) && entry < TWO32 && entry != 0 && AddedPid(m.w.s) != -1
    ensures Fresh(StepIn(m, kt, Create(entry)), m.w.s.nextPid, entry)
  {
    var s, m', i := m.w.s, StepIn(m, kt, Create(entry)), FirstUnused(m.w.s.tasks);
    AddKeepsInv(s);
    CreatedMemory(m.mem, HeapOf(m.w), a, e, entry);
    assert m'.w.s == AddTask(s) && m'.mem == Created(m.mem, s.heap, entry);
    hide MemInv, Malloc, FirstUnused, Created, StartsAt, HeapRuns.InMemory, Inv, Step, HeapRuns.Step, AddTask, StepIn, AddedPid;
    FilledIsFresh(m', s, i, Malloc(s.heap, STACK_SIZE).ptr, entry);
  }

  lemma {:induction false} FilledIsFresh(m: MemWorld, s: Sched, i: nat, p: nat, entry: nat)
    requires Filled(s, m.w.s, i, p) && i != s.current && StartsAt(m.mem, InitialEsp(p), entry)
    ensures Fresh(m, s.nextPid, entry)
  {
    assert Waiting(m.w.s, i);
  }

  // ---------------------------------------------------------------- whole runs

  lemma {:induction false} StepKeepsMem(m: MemWorld, kt: nat, a: nat, e: nat, ev: MemEvent)
    requires MemInv(m, kt, a, e) && AllowedIn(m, kt, a, e, ev)
    ensures MemInv(StepIn(m, kt, ev), kt, a, e)
  {
    match ev {
      case Create(entry) => CreateKeeps(m, kt, a, e, entry);
      case Store(at, bytes) => StoreKeeps(m, kt, a, e, at, bytes);
      case Do(event) =>
        hide StepIn, Intact, HeapRuns.InMemory, WorldInv;
        match event {
          case WaitCall(pid) => WaitKeeps(m, kt, a, e, pid);
          case Other(op) => OtherKeeps(m, kt, a, e, op);
          case RaiseStart => FlagKeeps(m, kt, a, e, event);
          case Want => FlagKeeps(m, kt, a, e, event);
          case _ =>
            if Interrupting(m.w.s, event) {
              InterruptKeeps(m, kt, a, e, event);
            } else {
              IdleKeeps(m, kt, a, e, event);
            }
        }
    }
  }

  lemma {:induction false} IdleKeeps(m: MemWorld, kt: nat, a: nat, e: nat, ev: Event)
    requires MemInv(m, kt, a, e) && Allowed(m.w, ev) && !Interrupting(m.w.s, ev) && (ev.Timer? || ev.Irq? || ev.ExitCall?)
    ensures StepIn(m, kt, Do(ev)) == m
  {
    IdleStep(m.w, a, e, ev);
    hide WorldInv, Intact, Step;
  }

  ghost predicate AllowedRunIn(m: MemWorld, kt: nat, a: nat, e: nat, es: seq<MemEvent>)
    requires MemInv(m, kt, a, e)
    decreases |es|
  {
    es == [] ||
    (AllowedIn(m, kt, a, e, es[0]) &&
     (StepKeepsMem(m, kt, a, e, es[0]); AllowedRunIn(StepIn(m, kt, es[0]), kt, a, e, es[1..])))
  }

  ghost function RunIn(m: MemWorld, kt: nat, a: nat, e: nat, es: seq<MemEvent>): (r: MemWorld)
    requires MemInv(m, kt, a, e) && AllowedRunIn(m, kt, a, e, es)
    ensures MemInv(r, kt, a, e)
    decreases |es|
  {
    if es == [] then m
    else
      StepKeepsMem(m, kt, a, e, es[0]);
      RunIn(StepIn(m, kt, es[0]), kt, a, e, es[1..])
  }

  /** `heap_init` and `scheduler_init` in any memory. */
  function InitialIn(n: nat, start: nat, size: nat, mem: seq<byte>): MemWorld
    requires HEADER < size
  {
    MemWorld(Initial(n, start, size), Stamped(mem, HeapRuns.Initial(start, size).blocks, 0), map[])
  }

  lemma {:induction false} InitialInvIn(n: nat, start: nat, size: nat, mem: seq<byte>, kt: nat)
    requires 0 < n && 0 < start && HEADER < size && start + size < TWO32 && |mem| == TWO32 && kt <= TWO32
    ensures MemInv(InitialIn(n, start, size, mem), kt, start, start + size)
  {
    InitialInv(n, start, size);
    HeapRuns.InitialInv(start, size);
    var bs := HeapRuns.Initial(start, size).blocks;
    assert bs[1..] == [];
    hide Stamped, Linked;
    StampedLinks(mem, bs, 0, start, start + size);
  }

  /** Frame integrity: after any run, what an interrupt resumes finds on its stack, from the stack pointer it
      gets to the top, exactly the bytes that were there when it was interrupted or created. With scheduling off
      it resumes what it interrupted and leaves state and memory as they are. */
  lemma {:induction false} FrameIntegrity(m: MemWorld, kt: nat, a: nat, e: nat, es: seq<MemEvent>, ev: Event)
    requires MemInv(m, kt, a, e) && AllowedRunIn(m, kt, a, e, es)
    requires AllowedIn(RunIn(m, kt, a, e, es), kt, a, e, Do(ev)) && (ev.Timer? || ev.Irq? || ev.ExitCall?)
    ensures var before := RunIn(m, kt, a, e, es);
      var after, r := StepIn(before, kt, Do(ev)), Resumed(before.w.s, ev);
      && after.mem == before.mem && after.w.s == r.s
      && (before.w.s.enabled ==>
            && r.esp <= TopOf(r.s, kt) <= |after.mem|
            && ContextId(r.s) in after.frames && after.mem[r.esp..TopOf(r.s, kt)] == after.frames[ContextId(r.s)])
      && (!before.w.s.enabled ==> after == before && r.esp == ev.esp)
  {
    var before := RunIn(m, kt, a, e, es);
    hide RunIn, AllowedRunIn, StepIn, WorldInv, Intact, HeapRuns.InMemory, Resumed;
    EnabledInterrupts(before.w, a, e, ev);
    hide Interrupting;
    if before.w.s.enabled {
      ResumedFrame(before, kt, a, e, ev);
    } else {
      IdleStep(before.w, a, e, ev);
      IdleKeeps(before, kt, a, e, ev);
    }
  }

  lemma {:induction false} ResumedFrame(m: MemWorld, kt: nat, a: nat, e: nat, ev: Event)
    requires MemInv(m, kt, a, e) && AllowedIn(m, kt, a, e, Do(ev)) && Interrupting(m.w.s, ev)
    ensures var m', r := StepIn(m, kt, Do(ev)), Resumed(m.w.s, ev);
      && m'.mem == m.mem && m'.w.s == r.s && r.esp <= TopOf(r.s, kt) <= |m'.mem|
      && ContextId(r.s) in m'.frames && m'.mem[r.esp..TopOf(r.s, kt)] == m'.frames[ContextId(r.s)]
  {
    InterruptFrames(m, kt, a, e, ev);
    InterruptStep(m.w, a, e, ev);
    InterruptEffect(m.w.s, ev);
    hide WorldInv, Intact, HeapRuns.InMemory, StepIn, Resumed, Inv, SlotsAfter;
  }

  /** A waiting slot is left alone by every event. */
  lemma {:induction false} WaitingSlotStays(w: World, a: nat, e: nat, ev: Event, i: int)
    requires WorldInv(w, a, e) && Allowed(w, ev) && Waiting(w.s, i)
    ensures var t := Step(w, ev).s; |t.tasks| == |w.s.tasks| && t.tasks[i] == w.s.tasks[i]
  {
    hide StacksOwned, SavedIsSeen, Reaping, PidsDistinct, HeapRuns.Inv, CountRunnable, Malloc, Free, HeapRuns.Step, FirstUnused;
    match ev {
      case Add =>
        if AddedPid(w.s) != -1 {
          AddKeepsInv(w.s);
        }
      case WaitCall(pid) =>
        if ZombieSlot(w.s, pid, 0) < w.s.count {
          WaitKeepsInv(w.s, pid);
        }
      case Other(op) =>
      case RaiseStart => FlagStep(w, a, e, ev);
      case Want => FlagStep(w, a, e, ev);
      case _ =>
        if Interrupting(w.s, ev) {
          InterruptEffect(w.s, ev);
        } else {
          IdleStep(w, a, e, ev);
        }
    }
  }

  /** A task that has not run keeps its first frame. */
  lemma {:induction false} FreshStays(m: MemWorld, kt: nat, a: nat, e: nat, ev: MemEvent, pid: int, entry: nat)
    requires MemInv(m, kt, a, e) && AllowedIn(m, kt, a, e, ev) && Fresh(m, pid, entry)
    requires ContextId(StepIn(m, kt, ev).w.s) != pid
    ensures Fresh(StepIn(m, kt, ev), pid, entry)
  {
    var m' := StepIn(m, kt, ev);
    var i :| Waiting(m.w.s, i) && FreshTask(m.w.s.tasks[i], m.mem, pid, entry);
    WaitingIntact(m, kt, a, e, i);
    SlotOfStep(m, kt, a, e, ev, i);
    StepKeepsMem(m, kt, a, e, ev);
    hide MemInv, AllowedIn, StepIn;
    assert Waiting(m'.w.s, i);
    WaitingIntact(m', kt, a, e, i);
    SameFrame(m.w.s.tasks[i], m.mem, m'.mem, m.frames, m'.frames, pid, entry);
  }

  lemma {:induction false} WaitingIntact(m: MemWorld, kt: nat, a: nat, e: nat, i: int)
    requires MemInv(m, kt, a, e) && Waiting(m.w.s, i)
    ensures TaskIntact(m.w.s.tasks[i], m.mem, m.frames)
  {
  }

  lemma {:induction false} SameFrame(t: Task, mem: seq<byte>, mem': seq<byte>, frames: map<int, seq<byte>>,
                                     frames': map<int, seq<byte>>, pid: int, entry: nat)
    requires TaskIntact(t, mem, frames) && TaskIntact(t, mem', frames') && frames'[t.pid] == frames[t.pid]
    requires |mem'| == |mem| && FreshTask(t, mem, pid, entry)
    ensures FreshTask(t, mem', pid, entry)
  {
    hide StartsAt;
    SliceBytes(mem, mem', t.esp, t.stack + STACK_SIZE);
    StartsFrame(mem, mem', t.esp, entry);
  }

  lemma {:induction false} SliceBytes(mem: seq<byte>, mem': seq<byte>, x: nat, y: nat)
    requires x <= y <= |mem| == |mem'| && mem[x..y] == mem'[x..y]
    ensures forall q :: x <= q < y ==> mem'[q] == mem[q]
  {
    forall q | x <= q < y
      ensures mem'[q] == mem[q]
    {
      assert mem[x..y][q - x] == mem'[x..y][q - x];
    }
  }

  /** The slot of a waiting task and what was seen of it are as before. */
  ghost predicate SameSlot(m: MemWorld, m': MemWorld, i: int) {
    && |m'.mem| == |m.mem| && 0 <= i < |m.w.s.tasks| && i < |m'.w.s.tasks| && m'.w.s.tasks[i] == m.w.s.tasks[i]
    && (m.w.s.tasks[i].pid in m.frames ==>
          m.w.s.tasks[i].pid in m'.frames && m'.frames[m.w.s.tasks[i].pid] == m.frames[m.w.s.tasks[i].pid])
  }

  lemma {:induction false} SlotOfStep(m: MemWorld, kt: nat, a: nat, e: nat, ev: MemEvent, i: int)
    requires MemInv(m, kt, a, e) && AllowedIn(m, kt, a, e, ev) && Waiting(m.w.s, i)
    ensures SameSlot(m, StepIn(m, kt, ev), i)
  {
    hide WorldInv, HeapRuns.InMemory, Intact;
    match ev {
      case Create(entry) => SlotOfCreate(m, kt, a, e, entry, i);
      case Store(at, bytes) =>
      case Do(event) =>
        hide StepIn, SameSlot, EspInside;
        SlotOfEvent(m, kt, a, e, event, i);
    }
  }

  lemma {:induction false} SlotOfCreate(m: MemWorld, kt: nat, a: nat, e: nat, entry: nat, i: int)
    requires MemInv(m, kt, a, e) && Waiting(m.w.s, i)
    ensures SameSlot(m, StepIn(m, kt, Create(entry)), i)
  {
    hide WorldInv, HeapRuns.InMemory, Intact, Step, Created, Segment, AddedPid, Malloc;
    WaitingPid(m.w, a, e, i);
    WaitingSlotStays(m.w, a, e, Add, i);
  }

  lemma {:induction false} SlotOfEvent(m: MemWorld, kt: nat, a: nat, e: nat, ev: Event, i: int)
    requires MemInv(m, kt, a, e) && Allowed(m.w, ev) && Waiting(m.w.s, i)
    ensures SameSlot(m, StepIn(m, kt, Do(ev)), i)
  {
    hide WorldInv, HeapRuns.InMemory, Intact, Step, MemoryAfter, Interrupting, ContextId, Segment, TopOf, Allowed;
    WaitingPid(m.w, a, e, i);
    WaitingSlotStays(m.w, a, e, ev, i);
  }

  lemma {:induction false} WaitingPid(w: World, a: nat, e: nat, i: int)
    requires WorldInv(w, a, e) && Waiting(w.s, i)
    ensures w.s.tasks[i].pid != ContextId(w.s) && w.s.tasks[i].pid < w.s.nextPid
  {
    OtherContext(w.s, i);
  }

  /** The task with this pid is not dispatched in the run. */
  ghost predicate NeverRuns(m: MemWorld, kt: nat, a: nat, e: nat, es: seq<MemEvent>, pid: int)
    requires MemInv(m, kt, a, e) && AllowedRunIn(m, kt, a, e, es)
    decreases |es|
  {
    es == [] ||
    (StepKeepsMem(m, kt, a, e, es[0]);
     var m' := StepIn(m, kt, es[0]);
     ContextId(m'.w.s) != pid && NeverRuns(m', kt, a, e, es[1..], pid))
  }

  lemma {:induction false} StepAllowed(m: MemWorld, kt: nat, a: nat, e: nat, ev: MemEvent)
    requires MemInv(m, kt, a, e) && AllowedIn(m, kt, a, e, ev)
    ensures -1 <= m.w.s.current < |m.w.s.tasks| && m.w.s.count <= |m.w.s.tasks| && (ev.Do? ==> Allowed(m.w, ev.event))
  {
  }

  lemma {:induction false} FreshInRun(m: MemWorld, kt: nat, a: nat, e: nat, es: seq<MemEvent>, pid: int, entry: nat)
    requires MemInv(m, kt, a, e) && AllowedRunIn(m, kt, a, e, es) && NeverRuns(m, kt, a, e, es, pid) && Fresh(m, pid, entry)
    ensures Fresh(RunIn(m, kt, a, e, es), pid, entry)
    decreases |es|
  {
    if es != [] {
      hide StepIn, MemInv, AllowedIn, Fresh, ContextId, Allowed;
      StepAllowed(m, kt, a, e, es[0]);
      StepKeepsMem(m, kt, a, e, es[0]);
      FreshStays(m, kt, a, e, es[0], pid, entry);
      FreshInRun(StepIn(m, kt, es[0]), kt, a, e, es[1..], pid, entry);
    }
  }

  /** First dispatch: whatever happens between `scheduler_add` and the interrupt that first resumes the new
      task, the stub finds on its stack the frame that starts it at its entry point. */
  lemma {:induction false} FirstDispatch(m: MemWorld, kt: nat, a: nat, e: nat, entry: nat, es: seq<MemEvent>, ev: Event)
    requires MemInv(m, kt, a, e) && 0 < entry < TWO32 && AddedPid(m.w.s) != -1
    requires MemInv(StepIn(m, kt, Create(entry)), kt, a, e)
    requires AllowedRunIn(StepIn(m, kt, Create(entry)), kt, a, e, es)
    requires NeverRuns(StepIn(m, kt, Create(entry)), kt, a, e, es, m.w.s.nextPid)
    requires var before := RunIn(StepIn(m, kt, Create(entry)), kt, a, e, es);
      && AllowedIn(before, kt, a, e, Do(ev)) && Interrupting(before.w.s, ev)
      && ContextId(Resumed(before.w.s, ev).s) == m.w.s.nextPid
    ensures var before := RunIn(StepIn(m, kt, Create(entry)), kt, a, e, es);
      var r := Resumed(before.w.s, ev);
      StartsAt(StepIn(before, kt, Do(ev)).mem, r.esp, entry) && r.esp + 56 == TopOf(r.s, kt)
  {
    var m1, pid := StepIn(m, kt, Create(entry)), m.w.s.nextPid;
    CreateIsFresh(m, kt, a, e, entry);
    FreshInRun(m1, kt, a, e, es, pid, entry);
    var before := RunIn(m1, kt, a, e, es);
    hide RunIn, AllowedRunIn, StepIn, NeverRuns;
    FreshResumed(before, kt, a, e, ev, pid, entry);
  }

  lemma {:induction false} FreshResumed(m: MemWorld, kt: nat, a: nat, e: nat, ev: Event, pid: int, entry: nat)
    requires MemInv(m, kt, a, e) && AllowedIn(m, kt, a, e, Do(ev)) && Interrupting(m.w.s, ev) && Fresh(m, pid, entry)
    requires ContextId(Resumed(m.w.s, ev).s) == pid
    ensures StartsAt(StepIn(m, kt, Do(ev)).mem, Resumed(m.w.s, ev).esp, entry)
    ensures Resumed(m.w.s, ev).esp + 56 == TopOf(Resumed(m.w.s, ev).s, kt)
  {
    var s, r := m.w.s, Resumed(m.w.s, ev);
    ResumedFrame(m, kt, a, e, ev);
    InterruptEffect(s, ev);
    var i :| Waiting(s, i) && FreshTask(s.tasks[i], m.mem, pid, entry);
    assert r.s.tasks[i] == s.tasks[i] && IsRunnable(r.s.tasks, i);
    hide StepIn, Resumed, StartsAt, MemInv, SlotsAfter;
    OnlyCurrent(r.s, i);
  }

  lemma {:induction false} OnlyCurrent(s: Sched, i: int)
    requires Inv(s) && IsRunnable(s.tasks, i) && s.tasks[i].pid == ContextId(s)
    ensures s.current == i
  {
    if i != s.current {
      OtherContext(s, i);
    }
  }
}
