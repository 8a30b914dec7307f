/** Whole runs of the scheduler together with the heap its stacks come from: any interleaving of task
    creation, timer and other interrupts, yields, exits, waits and heap use by other kernel code. */
module SchedulerRuns {
  import opened Arithmetic
  import opened HeapBlocks
  import HeapRuns
  import opened Scheduling

  /** The esp of an event is the stack pointer at which the running context is interrupted. `task_yield` is
      `Want` and then `Timer`, `scheduler_start` is `RaiseStart` and then `Timer`: other interrupts may come
      between the flag and the `int`. An `Irq` is any interrupt or system call that is not the timer's: its
      stub runs the switch too, without a tick. */
  datatype Event =
    | Add
    | RaiseStart
    | Want
    | Timer(esp: nat)
    | Irq(esp: nat)
    | ExitCall(code: int, esp: nat)
    | WaitCall(pid: int)
    | Other(op: HeapRuns.Op)

  /** The scheduler, and what an outside observer has seen so far: the live heap pointers with their
      requests, the last stack pointer of every context (0 is the kernel), the exit codes passed to
      exits, and the pids that were reaped. */
  datatype World = World(s: Sched, live: map<nat, nat>, seen: map<int, nat>, exited: map<int, int>, reaped: set<int>)

  // ---------------------------------------------------------------- steps

  /** The event saves a context and runs the switch. */
  predicate Interrupting(s: Sched, e: Event) {
    match e
    case Timer(_) => s.enabled
    case Irq(_) => s.enabled
    case ExitCall(_, _) => s.enabled && s.count > 0 && s.current >= 0
    case _ => false
  }

  /** The state in which that switch is entered. */
  function Prepared(s: Sched, e: Event): Sched {
    match e
    case Timer(_) => Tick(s)
    case ExitCall(code, _) =>
      if 0 <= s.current < |s.tasks| then
        var t := s.tasks[s.current].(state := Zombie, code := code);
        Tick(s.(tasks := s.tasks[s.current := t], active := if s.active > 0 then s.active - 1 else 0, need := true))
      else s
    case _ => s
  }

  /** What the entry point returns to: the new state and the resumed stack pointer. */
  function Resumed(s: Sched, e: Event): Resume
    requires -1 <= s.current < |s.tasks|
    requires e.Timer? || e.Irq? || (e.ExitCall? && s.current >= 0)
  {
    match e
    case Timer(esp) => Interrupt(s, esp)
    case Irq(esp) => Switch(s, esp)
    case ExitCall(code, esp) => Exit(s, code, esp)
  }

  function ContextId(s: Sched): int {
    if 0 <= s.current < |s.tasks| then s.tasks[s.current].pid else 0
  }

  predicate IsStack(s: Sched, p: nat) {
    exists i :: 0 <= i < |s.tasks| && s.tasks[i].state != Unused && s.tasks[i].stack == p
  }

  /** Start runs in the kernel with scheduling off, exit in a task; other code frees its own pointers. */
  predicate Allowed(w: World, e: Event) {
    match e
    case RaiseStart => !w.s.enabled
    case ExitCall(_, _) => w.s.current >= 0
    case Other(Alloc(request)) => request < TWO32
    case Other(Release(p)) => p in w.live && !IsStack(w.s, p)
    case _ => true
  }

  function Step(w: World, e: Event): World
    requires -1 <= w.s.current < |w.s.tasks| && w.s.count <= |w.s.tasks| && Allowed(w, e)
  {
    var s := w.s;
    match e
    case Add =>
      if AddedPid(s) == -1 then w
      else
        var p := Malloc(s.heap, STACK_SIZE).ptr;
        w.(s := AddTask(s), live := w.live[p := STACK_SIZE], seen := w.seen[s.nextPid := InitialEsp(p)])
    case WaitCall(pid) =>
      var i := ZombieSlot(s, pid, 0);
      if i == s.count then w
      else w.(s := Wait(s, pid), live := w.live - {s.tasks[i].stack}, reaped := w.reaped + {pid})
    case Other(op) =>
      var h := HeapRuns.Step(HeapRuns.HeapState(s.heap, w.live), op);
      w.(s := s.(heap := h.blocks), live := h.live)
    case RaiseStart => if s.active == 0 then w else w.(s := s.(enabled := true, current := -1, need := true))
    case Want => if !s.enabled || s.count < 2 then w else w.(s := s.(need := true))
    case _ =>
      var w' := w.(s := Resumed(s, e).s);
      if Interrupting(s, e) then
        w'.(seen := w.seen[ContextId(s) := e.esp],
            exited := if e.ExitCall? then w.exited[ContextId(s) := e.code] else w.exited)
      else w'
  }

  // ---------------------------------------------------------------- the invariant of runs

  /** The stacks of the live slots are distinct live heap blocks of the requested size. */
  ghost predicate StacksOwned(s: Sched, live: map<nat, nat>) {
    && (forall i :: 0 <= i < |s.tasks| ==>
          if s.tasks[i].state == Unused then s.tasks[i].stack == 0
          else s.tasks[i].stack in live && s.tasks[i].stack != 0 && live[s.tasks[i].stack] == STACK_SIZE)
    && (forall i, j :: 0 <= i < j < |s.tasks| && s.tasks[i].state != Unused && s.tasks[j].state != Unused ==>
          s.tasks[i].stack != s.tasks[j].stack)
  }

  /** Every saved stack pointer is the last one the observer saw for that context. */
  ghost predicate SavedIsSeen(s: Sched, seen: map<int, nat>) {
    && (forall i :: 0 <= i < |s.tasks| && s.tasks[i].state == Runnable ==>
          s.tasks[i].pid in seen && s.tasks[i].esp == seen[s.tasks[i].pid])
    && (s.current >= 0 ==> 0 in seen && s.kernelEsp == seen[0])
  }

  /** Zombies carry the code of their exit; runnable tasks have not exited; nothing live was reaped. */
  ghost predicate Reaping(s: Sched, exited: map<int, int>, reaped: set<int>) {
    && (forall i :: 0 <= i < |s.tasks| && s.tasks[i].state == Zombie ==>
          s.tasks[i].pid in exited && s.tasks[i].code == exited[s.tasks[i].pid] && s.tasks[i].pid !in reaped)
    && (forall i :: 0 <= i < |s.tasks| && s.tasks[i].state == Runnable ==>
          s.tasks[i].pid !in exited && s.tasks[i].pid !in reaped)
    && (forall p :: p in exited || p in reaped ==> 1 <= p < s.nextPid)
  }

  ghost predicate WorldInv(w: World, a: nat, e: nat) {
    && Inv(w.s)
    && HeapRuns.Inv(HeapRuns.HeapState(w.s.heap, w.live), a, e)
    && StacksOwned(w.s, w.live)
    && SavedIsSeen(w.s, w.seen)
    && Reaping(w.s, w.exited, w.reaped)
  }

  // ---------------------------------------------------------------- interrupts

  /** Every interrupt enters the switch in a proper state: same slots, except that an exiting task is
      now a zombie. */
  lemma {:induction false} PreparedEnters(s: Sched, e: Event)
    requires Inv(s) && Interrupting(s, e)
    ensures var p := Prepared(s, e);
      && Entering(p) && |p.tasks| == |s.tasks| && p.count == s.count && p.nextPid == s.nextPid && p.heap == s.heap
      && p.current == s.current && p.kernelEsp == s.kernelEsp
      && (forall i :: 0 <= i < |s.tasks| && !(e.ExitCall? && i == s.current) ==> p.tasks[i] == s.tasks[i])
      && (e.ExitCall? ==> s.current >= 0 && p.tasks[s.current] == s.tasks[s.current].(state := Zombie, code := e.code))
      && (!e.Timer? && !e.Irq? ==> p.need)
      && Resumed(s, e) == Switch(p, e.esp)
  {
    hide Switch;
    if e.ExitCall? {
      ExitEnters(s, e.code);
    } else {
      CountZero(s.tasks);
      hide CountRunnable, PidsDistinct;
    }
  }

  lemma {:induction false} ExitEnters(s: Sched, code: int)
    requires Inv(s) && s.count > 0 && s.current >= 0
    ensures var t := s.tasks[s.current].(state := Zombie, code := code);
      Entering(Tick(s.(tasks := s.tasks[s.current := t], active := if s.active > 0 then s.active - 1 else 0, need := true)))
  {
    var t := s.tasks[s.current].(state := Zombie, code := code);
    CountUpdate(s.tasks, s.current, t);
    CountZero(s.tasks);
    hide CountRunnable, PidsDistinct;
    PidsOfExit(s, t);
  }

  lemma {:induction false} PidsOfExit(s: Sched, t: Task)
    requires 0 <= s.current < |s.tasks| && PidsDistinct(s) && s.tasks[s.current].state != Unused && t.pid == s.tasks[s.current].pid
    ensures forall u: Sched :: u.tasks == s.tasks[s.current := t] && u.nextPid == s.nextPid ==> PidsDistinct(u)
  {
  }

  function InterruptedTask(t: Task, e: Event): Task {
    match e
    case ExitCall(code, esp) => t.(state := Zombie, code := code, esp := esp)
    case Timer(esp) => t.(esp := esp)
    case Irq(esp) => t.(esp := esp)
    case _ => t
  }

  /** The slots after an interrupt: the interrupted one has its stack pointer saved, and is a zombie
      with its code if it exited; all others are as before. */
  ghost predicate SlotsAfter(s: Sched, e: Event, t: Sched) {
    && |t.tasks| == |s.tasks| && t.nextPid == s.nextPid && t.heap == s.heap
    && (forall i :: 0 <= i < |s.tasks| && i != s.current ==> t.tasks[i] == s.tasks[i])
    && (0 <= s.current < |s.tasks| ==> t.tasks[s.current] == InterruptedTask(s.tasks[s.current], e))
  }

  lemma {:induction false} InterruptEffect(s: Sched, e: Event)
    requires Inv(s) && Interrupting(s, e)
    ensures var r := Resumed(s, e);
      && Inv(r.s) && SlotsAfter(s, e, r.s)
      && r.s.kernelEsp == (if s.current == -1 then e.esp else s.kernelEsp)
      && r.esp == (if r.s.current >= 0 then r.s.tasks[r.s.current].esp else r.s.kernelEsp)
      && (r.s.current == -1 <==> forall i :: 0 <= i < |s.tasks| ==> !IsRunnable(r.s.tasks, i))
  {
    hide Resumed, Switch, Prepared, SaveEsp, Entering, CountRunnable, NextTask, PidsDistinct, Inv, SlotsAfter;
    PreparedEnters(s, e);
    SwitchEffect(Prepared(s, e), e.esp);
    SwitchKeepsInv(Prepared(s, e), e.esp);
    CurrentInside(s);
    SlotsSaved(s, e, Prepared(s, e), Switch(Prepared(s, e), e.esp).s);
  }

  lemma {:induction false} CurrentInside(s: Sched)
    requires Inv(s)
    ensures -1 <= s.current < |s.tasks|
  {
  }

  /** From the state in which the switch is entered to the slots it leaves. */
  lemma {:induction false} SlotsSaved(s: Sched, e: Event, p: Sched, t: Sched)
    requires -1 <= s.current == p.current < |s.tasks| == |p.tasks|
    requires e.Timer? || e.Irq? || e.ExitCall?
    requires p.nextPid == s.nextPid && p.heap == s.heap && t.nextPid == p.nextPid && t.heap == p.heap
    requires forall i :: 0 <= i < |s.tasks| && !(e.ExitCall? && i == s.current) ==> p.tasks[i] == s.tasks[i]
    requires e.ExitCall? ==> s.current >= 0 && p.tasks[s.current] == s.tasks[s.current].(state := Zombie, code := e.code)
    requires t.tasks == SaveEsp(p, e.esp).tasks
    ensures SlotsAfter(s, e, t)
  {
  }

  lemma {:induction false} KeepsStacks(s: Sched, e: Event, t: Sched, live: map<nat, nat>)
    requires SlotsAfter(s, e, t) && StacksOwned(s, live) && (s.current >= 0 ==> IsRunnable(s.tasks, s.current))
    ensures StacksOwned(t, live)
  {
    assert forall i :: 0 <= i < |s.tasks| ==>
      t.tasks[i].stack == s.tasks[i].stack && (t.tasks[i].state == Unused <==> s.tasks[i].state == Unused);
  }

  /** What was saved is what was seen. */
  lemma {:induction false} KeepsSaved(s: Sched, e: Event, t: Sched, seen: map<int, nat>)
    requires Interrupting(s, e) && -1 <= s.current < |s.tasks| && SlotsAfter(s, e, t) && SavedIsSeen(s, seen)
    requires PidsDistinct(s) && (s.current >= 0 ==> IsRunnable(s.tasks, s.current) && s.enabled)
    requires t.kernelEsp == (if s.current == -1 then e.esp else s.kernelEsp)
    ensures SavedIsSeen(t, seen[ContextId(s) := e.esp])
  {
    var seen' := seen[ContextId(s) := e.esp];
    forall i | 0 <= i < |s.tasks| && t.tasks[i].state == Runnable
      ensures t.tasks[i].pid in seen' && t.tasks[i].esp == seen'[t.tasks[i].pid]
    {
      if i == s.current {
        assert t.tasks[i].pid == ContextId(s) && t.tasks[i].esp == e.esp;
      } else {
        assert t.tasks[i] == s.tasks[i] && s.tasks[i].pid >= 1;
        assert s.current >= 0 ==> s.tasks[i].pid != s.tasks[s.current].pid;
      }
    }
  }

  lemma {:induction false} KeepsReaping(s: Sched, e: Event, t: Sched, exited: map<int, int>, reaped: set<int>)
    requires -1 <= s.current < |s.tasks| && SlotsAfter(s, e, t) && Reaping(s, exited, reaped) && PidsDistinct(s)
    requires s.current >= 0 ==> IsRunnable(s.tasks, s.current)
    requires e.ExitCall? ==> s.current >= 0
    ensures Reaping(t, if e.ExitCall? then exited[ContextId(s) := e.code] else exited, reaped)
  {
    var exited' := if e.ExitCall? then exited[ContextId(s) := e.code] else exited;
    forall i | 0 <= i < |s.tasks| && i != s.current && s.tasks[i].state != Unused
      ensures s.current >= 0 ==> s.tasks[i].pid != s.tasks[s.current].pid
    {
    }
    assert forall i :: 0 <= i < |s.tasks| && i != s.current ==> t.tasks[i] == s.tasks[i];
  }

  /** Context integrity of one interrupt: the resumed stack pointer is the last one seen for the context
      that now runs, a resumed task is runnable, and the kernel resumes only when nothing is runnable. */
  lemma {:induction false} InterruptStep(w: World, a: nat, e: nat, ev: Event)
    requires WorldInv(w, a, e) && Allowed(w, ev) && Interrupting(w.s, ev)
    ensures var w', r := Step(w, ev), Resumed(w.s, ev);
      && WorldInv(w', a, e) && w'.s == r.s
      && ContextId(w'.s) in w'.seen && r.esp == w'.seen[ContextId(w'.s)]
      && (w'.s.current >= 0 ==> IsRunnable(w'.s.tasks, w'.s.current))
      && (w'.s.current == -1 ==> forall i :: 0 <= i < |w'.s.tasks| ==> !IsRunnable(w'.s.tasks, i))
  {
    var s, t := w.s, Resumed(w.s, ev).s;
    InterruptEffect(s, ev);
    hide Resumed, CountRunnable;
    KeepsStacks(s, ev, t, w.live);
    KeepsSaved(s, ev, t, w.seen);
    KeepsReaping(s, ev, t, w.exited, w.reaped);
    hide StacksOwned, Reaping, PidsDistinct, HeapRuns.Inv;
    ResumedIsSeen(t, w.seen[ContextId(s) := ev.esp]);
  }

  lemma {:induction false} ResumedIsSeen(t: Sched, seen: map<int, nat>)
    requires Inv(t) && SavedIsSeen(t, seen)
    requires t.current == -1 ==> 0 in seen && t.kernelEsp == seen[0]
    ensures ContextId(t) in seen
    ensures seen[ContextId(t)] == if t.current >= 0 then t.tasks[t.current].esp else t.kernelEsp
  {
  }

  // ---------------------------------------------------------------- the other steps

  /** With scheduling off, an interrupt changes nothing and resumes exactly what it interrupted. */
  lemma {:induction false} IdleStep(w: World, a: nat, e: nat, ev: Event)
    requires WorldInv(w, a, e) && Allowed(w, ev) && !Interrupting(w.s, ev)
    requires ev.Timer? || ev.Irq? || ev.ExitCall?
    ensures Step(w, ev) == w
    ensures Resumed(w.s, ev) == Resume(w.s, ev.esp)
  {
  }

  /** Raising a flag changes nothing else. */
  lemma {:induction false} FlagStep(w: World, a: nat, e: nat, ev: Event)
    requires WorldInv(w, a, e) && Allowed(w, ev) && (ev.RaiseStart? || ev.Want?)
    ensures WorldInv(Step(w, ev), a, e)
    ensures var t := Step(w, ev).s;
      t == w.s.(enabled := t.enabled, need := t.need) && (w.s.enabled ==> t.enabled) && (w.s.need ==> t.need)
  {
    hide CountRunnable, HeapRuns.Inv, Reaping;
    SameFlags(w, Step(w, ev).s);
  }

  lemma {:induction false} SameFlags(w: World, t: Sched)
    requires -1 <= w.s.current && (w.s.enabled || w.s.current == -1) && t == w.s.(enabled := t.enabled, need := t.need)
    ensures PidsDistinct(w.s) ==> PidsDistinct(t)
    ensures StacksOwned(w.s, w.live) ==> StacksOwned(t, w.live)
    ensures SavedIsSeen(w.s, w.seen) ==> SavedIsSeen(t, w.seen)
    ensures Reaping(w.s, w.exited, w.reaped) ==> Reaping(t, w.exited, w.reaped)
  {
  }

  /** Slot `i` of `s` was unused and now holds a new task with stack `p`. */
  ghost predicate Filled(s: Sched, t: Sched, i: nat, p: nat) {
    && i < |s.tasks| && s.tasks[i].state == Unused
    && t.tasks == s.tasks[i := Task(InitialEsp(p), p, s.nextPid, 0, Runnable)]
    && t.nextPid == s.nextPid + 1 && t.current == s.current && t.kernelEsp == s.kernelEsp
  }

  lemma {:induction false} FilledPids(s: Sched, t: Sched, i: nat, p: nat)
    requires Filled(s, t, i, p) && PidsDistinct(s) && 1 <= s.nextPid
    ensures PidsDistinct(t)
  {
    assert forall k :: 0 <= k < |s.tasks| && k != i ==> t.tasks[k] == s.tasks[k];
  }

  lemma {:induction false} FilledStacks(s: Sched, t: Sched, i: nat, p: nat, live: map<nat, nat>)
    requires Filled(s, t, i, p) && StacksOwned(s, live) && p !in live && p != 0
    ensures StacksOwned(t, live[p := STACK_SIZE])
  {
    assert forall k :: 0 <= k < |s.tasks| && k != i ==> t.tasks[k] == s.tasks[k];
  }

  lemma {:induction false} FilledSaved(s: Sched, t: Sched, i: nat, p: nat, seen: map<int, nat>)
    requires Filled(s, t, i, p) && SavedIsSeen(s, seen) && PidsDistinct(s) && 1 <= s.nextPid
    ensures SavedIsSeen(t, seen[s.nextPid := InitialEsp(p)])
  {
    assert forall k :: 0 <= k < |s.tasks| && k != i ==> t.tasks[k] == s.tasks[k];
  }

  lemma {:induction false} FilledReaping(s: Sched, t: Sched, i: nat, p: nat, exited: map<int, int>, reaped: set<int>)
    requires Filled(s, t, i, p) && Reaping(s, exited, reaped)
    ensures Reaping(t, exited, reaped)
  {
    assert forall k :: 0 <= k < |s.tasks| && k != i ==> t.tasks[k] == s.tasks[k];
  }

  /** A new task gets a fresh stack and a fresh pid. */
  lemma {:induction false} AddKeepsInv(s: Sched)
    requires Inv(s) && AddedPid(s) != -1
    ensures Inv(AddTask(s)) && AddTask(s).current == s.current && |AddTask(s).tasks| == |s.tasks|
    ensures Filled(s, AddTask(s), FirstUnused(s.tasks), Malloc(s.heap, STACK_SIZE).ptr)
  {
    hide Malloc;
    var i, p := FirstUnused(s.tasks), Malloc(s.heap, STACK_SIZE).ptr;
    CountUpdate(s.tasks, i, Task(InitialEsp(p), p, s.nextPid, 0, Runnable));
    assert s.count < |s.tasks| ==> s.tasks[s.count].state == Unused;
    assert i <= s.count;
    hide CountRunnable, FirstUnused;
    FilledPids(s, AddTask(s), i, p);
    hide PidsDistinct;
  }

  lemma {:induction false} AddStep(w: World, a: nat, e: nat)
    requires WorldInv(w, a, e)
    ensures WorldInv(Step(w, Add), a, e)
  {
    var s := w.s;
    if AddedPid(s) != -1 {
      var p, h, i := Malloc(s.heap, STACK_SIZE).ptr, HeapRuns.HeapState(s.heap, w.live), FirstUnused(s.tasks);
      AddKeepsInv(s);
      HeapRuns.FreshPointer(h, a, e, STACK_SIZE);
      HeapRuns.AllocStep(h, a, e, STACK_SIZE);
      assert AddTask(s).heap == Malloc(s.heap, STACK_SIZE).blocks;
      hide CountRunnable, Malloc, FirstUnused, HeapRuns.Inv, StacksOwned, SavedIsSeen, Reaping, PidsDistinct, Filled, AddTask;
      FilledStacks(s, AddTask(s), i, p, w.live);
      FilledSaved(s, AddTask(s), i, p, w.seen);
      FilledReaping(s, AddTask(s), i, p, w.exited, w.reaped);
    }
  }

  /** Slot `i` of `s` held a zombie and is now unused. */
  ghost predicate Cleared(s: Sched, t: Sched, i: nat) {
    && i < |s.tasks| && s.tasks[i].state == Zombie
    && t.tasks == s.tasks[i := s.tasks[i].(stack := 0, state := Unused)]
    && t.nextPid == s.nextPid && t.current == s.current && t.kernelEsp == s.kernelEsp
  }

  lemma {:induction false} ClearedPids(s: Sched, t: Sched, i: nat)
    requires Cleared(s, t, i) && PidsDistinct(s)
    ensures PidsDistinct(t)
  {
    assert forall k :: 0 <= k < |s.tasks| && k != i ==> t.tasks[k] == s.tasks[k];
  }

  lemma {:induction false} ClearedStacks(s: Sched, t: Sched, i: nat, live: map<nat, nat>)
    requires Cleared(s, t, i) && StacksOwned(s, live)
    ensures StacksOwned(t, live - {s.tasks[i].stack})
    ensures s.tasks[i].stack in live && s.tasks[i].stack != 0
    ensures forall k :: IsRunnable(s.tasks, k) ==> s.tasks[k].stack != s.tasks[i].stack
  {
    assert forall k :: 0 <= k < |s.tasks| && k != i ==> t.tasks[k] == s.tasks[k];
  }

  lemma {:induction false} ClearedSaved(s: Sched, t: Sched, i: nat, seen: map<int, nat>)
    requires Cleared(s, t, i) && SavedIsSeen(s, seen)
    ensures SavedIsSeen(t, seen)
  {
    assert forall k :: 0 <= k < |s.tasks| && k != i ==> t.tasks[k] == s.tasks[k];
  }

  lemma {:induction false} ClearedReaping(s: Sched, t: Sched, i: nat, exited: map<int, int>, reaped: set<int>)
    requires Cleared(s, t, i) && Reaping(s, exited, reaped) && PidsDistinct(s)
    ensures Reaping(t, exited, reaped + {s.tasks[i].pid})
    ensures s.tasks[i].pid in exited && s.tasks[i].code == exited[s.tasks[i].pid] && s.tasks[i].pid !in reaped
  {
    assert forall k :: 0 <= k < |s.tasks| && k != i ==> t.tasks[k] == s.tasks[k];
    forall k | 0 <= k < |s.tasks| && k != i && s.tasks[k].state != Unused
      ensures s.tasks[k].pid != s.tasks[i].pid
    {
    }
  }

  lemma {:induction false} WaitKeepsInv(s: Sched, pid: int)
    requires Inv(s) && ZombieSlot(s, pid, 0) < s.count
    ensures Inv(Wait(s, pid)) && Wait(s, pid).current == s.current && |Wait(s, pid).tasks| == |s.tasks|
    ensures Cleared(s, Wait(s, pid), ZombieSlot(s, pid, 0))
  {
    var i := ZombieSlot(s, pid, 0);
    CountUpdate(s.tasks, i, s.tasks[i].(stack := 0, state := Unused));
    hide CountRunnable, Free, ZombieSlot;
    ClearedPids(s, Wait(s, pid), i);
    hide PidsDistinct;
  }

  /** A successful wait changes the slots and the heap, the live pointers and the reaped pids. */
  lemma {:induction false} WaitedWorld(w: World, pid: int)
    requires -1 <= w.s.current < |w.s.tasks| && w.s.count <= |w.s.tasks| && ZombieSlot(w.s, pid, 0) < w.s.count
    ensures var i := ZombieSlot(w.s, pid, 0);
      && Step(w, WaitCall(pid)) ==
         w.(s := Wait(w.s, pid), live := w.live - {w.s.tasks[i].stack}, reaped := w.reaped + {pid})
      && (w.s.tasks[i].stack != 0 ==> Wait(w.s, pid).heap == Free(w.s.heap, w.s.tasks[i].stack))
      && w.s.tasks[i].pid == pid
  {
    hide ZombieSlot, Free;
  }

  /** A successful wait reports the code of the exit, for a pid that was never reaped before, and frees
      that task's stack, which is a live heap block and no runnable task's stack. */
  lemma {:induction false} WaitStep(w: World, a: nat, e: nat, pid: int)
    requires WorldInv(w, a, e)
    ensures WorldInv(Step(w, WaitCall(pid)), a, e)
    ensures var i := ZombieSlot(w.s, pid, 0);
      i < w.s.count ==>
        && pid in w.exited && w.s.tasks[i].code == w.exited[pid] && pid !in w.reaped
        && w.s.tasks[i].stack in w.live && IndexOf(w.s.heap, w.s.tasks[i].stack) < |w.s.heap|
        && pid in Step(w, WaitCall(pid)).reaped
        && (forall k :: IsRunnable(w.s.tasks, k) ==> w.s.tasks[k].stack != w.s.tasks[i].stack)
  {
    var s, i := w.s, ZombieSlot(w.s, pid, 0);
    if i < s.count {
      var h, p := HeapRuns.HeapState(s.heap, w.live), s.tasks[i].stack;
      WaitKeepsInv(s, pid);
      WaitedWorld(w, pid);
      hide StacksOwned, SavedIsSeen, Reaping, PidsDistinct, Cleared, CountRunnable, Free, HeapRuns.Inv, Step, Wait, ZombieSlot;
      ClearedStacks(s, Wait(s, pid), i, w.live);
      HeapRuns.ReleaseStep(h, a, e, p);
      ClearedSaved(s, Wait(s, pid), i, w.seen);
      ClearedReaping(s, Wait(s, pid), i, w.exited, w.reaped);
    }
  }

  lemma {:induction false} SameTasks(w: World, t: Sched)
    requires Inv(w.s) && t == w.s.(heap := t.heap)
    ensures Inv(t)
    ensures SavedIsSeen(w.s, w.seen) ==> SavedIsSeen(t, w.seen)
    ensures Reaping(w.s, w.exited, w.reaped) ==> Reaping(t, w.exited, w.reaped)
  {
    hide CountRunnable;
    assert PidsDistinct(t);
  }

  /** Other kernel code neither gets nor frees a stack. */
  lemma {:induction false} OthersSpareStacks(s: Sched, t: Sched, live: map<nat, nat>, live': map<nat, nat>)
    requires StacksOwned(s, live) && t.tasks == s.tasks
    requires forall p :: p in live && IsStack(s, p) ==> p in live' && live'[p] == live[p]
    ensures StacksOwned(t, live')
  {
    forall i | 0 <= i < |s.tasks| && s.tasks[i].state != Unused
      ensures s.tasks[i].stack in live' && live'[s.tasks[i].stack] == STACK_SIZE
    {
      assert IsStack(s, s.tasks[i].stack);
    }
  }

  lemma {:induction false} OtherStep(w: World, a: nat, e: nat, op: HeapRuns.Op)
    requires WorldInv(w, a, e) && Allowed(w, Other(op))
    ensures WorldInv(Step(w, Other(op)), a, e)
  {
    hide StacksOwned, SavedIsSeen, Reaping, PidsDistinct, CountRunnable, HeapRuns.Inv, Malloc, Free, IsStack;
    var w' := Step(w, Other(op));
    SameTasks(w, w'.s);
    OtherHeapStep(w.s, w.live, a, e, op);
    OthersSpareStacks(w.s, w'.s, w.live, w'.live);
  }

  /** Heap use by others keeps the heap proper and every stack live. */
  lemma {:induction false} OtherHeapStep(s: Sched, live: map<nat, nat>, a: nat, e: nat, op: HeapRuns.Op)
    requires HeapRuns.Inv(HeapRuns.HeapState(s.heap, live), a, e)
    requires HeapRuns.Allowed(HeapRuns.HeapState(s.heap, live), op) && (op.Release? ==> !IsStack(s, op.ptr))
    ensures var h' := HeapRuns.Step(HeapRuns.HeapState(s.heap, live), op);
      HeapRuns.Inv(h', a, e) && forall p :: p in live && IsStack(s, p) ==> p in h'.live && h'.live[p] == live[p]
  {
    hide HeapRuns.Inv, Malloc, Free, IsStack;
    var h := HeapRuns.HeapState(s.heap, live);
    match op {
      case Alloc(request) =>
        HeapRuns.AllocStep(h, a, e, request);
        if Malloc(s.heap, request).ptr != 0 {
          HeapRuns.FreshPointer(h, a, e, request);
        }
      case Release(p) => HeapRuns.ReleaseStep(h, a, e, p);
    }
  }

  // ---------------------------------------------------------------- whole runs

  lemma {:induction false} StepKeepsInv(w: World, a: nat, e: nat, ev: Event)
    requires WorldInv(w, a, e) && Allowed(w, ev)
    ensures WorldInv(Step(w, ev), a, e)
  {
    hide Step;
    match ev {
      case Add => AddStep(w, a, e);
      case WaitCall(pid) => WaitStep(w, a, e, pid);
      case Other(op) => OtherStep(w, a, e, op);
      case RaiseStart => FlagStep(w, a, e, ev);
      case Want => FlagStep(w, a, e, ev);
      case _ =>
        if Interrupting(w.s, ev) {
          InterruptStep(w, a, e, ev);
        } else {
          IdleStep(w, a, e, ev);
        }
    }
  }

  /** Every event of the run is allowed where it happens. */
  ghost predicate AllowedRun(w: World, a: nat, e: nat, es: seq<Event>)
    requires WorldInv(w, a, e)
    decreases |es|
  {
    es == [] || (Allowed(w, es[0]) && (StepKeepsInv(w, a, e, es[0]); AllowedRun(Step(w, es[0]), a, e, es[1..])))
  }

  ghost function Run(w: World, a: nat, e: nat, es: seq<Event>): (r: World)
    requires WorldInv(w, a, e) && AllowedRun(w, a, e, es)
    ensures WorldInv(r, a, e)
    decreases |es|
  {
    if es == [] then w
    else
      StepKeepsInv(w, a, e, es[0]);
      Run(Step(w, es[0]), a, e, es[1..])
  }

  /** `scheduler_init` on a fresh heap. */
  function Initial(n: nat, start: nat, size: nat): World
    requires HEADER < size
  {
    World(Sched(seq(n, _ => Task(0, 0, 0, 0, Unused)), 0, -1, 0, false, false, 0, 1, 0,
                HeapRuns.Initial(start, size).blocks),
          map[], map[], map[], {})
  }

  lemma {:induction false} InitialInv(n: nat, start: nat, size: nat)
    requires 0 < n && HEADER < size
    ensures WorldInv(Initial(n, start, size), start, start + size)
  {
    var s := Initial(n, start, size).s;
    HeapRuns.InitialInv(start, size);
    CountZero(s.tasks);
  }

  /** A run from `scheduler_init` on a fresh heap, with `n` task slots. */
  ghost predicate PossibleRun(n: nat, start: nat, size: nat, es: seq<Event>)
    requires 0 < n && HEADER < size
  {
    InitialInv(n, start, size);
    AllowedRun(Initial(n, start, size), start, start + size, es)
  }

  ghost function After(n: nat, start: nat, size: nat, es: seq<Event>): (w: World)
    requires 0 < n && HEADER < size && PossibleRun(n, start, size, es)
    ensures WorldInv(w, start, start + size)
  {
    InitialInv(n, start, size);
    Run(Initial(n, start, size), start, start + size, es)
  }

  /** Context integrity over whole runs: an interrupt with scheduling on resumes the last stack pointer seen for
      the context that then runs (or its initial frame); a resumed task is runnable, the kernel resumes only
      when no task is, and active_tasks is the number of runnable slots. With scheduling off it resumes the
      stack pointer it was given and changes nothing. */
  lemma {:induction false} ContextIntegrity(n: nat, start: nat, size: nat, es: seq<Event>, ev: Event)
    requires 0 < n && HEADER < size && PossibleRun(n, start, size, es)
    requires Allowed(After(n, start, size, es), ev) && (ev.Timer? || ev.Irq? || ev.ExitCall?)
    ensures var w := After(n, start, size, es);
      var w', r := Step(w, ev), Resumed(w.s, ev);
      && w'.s == r.s && w'.s.active == CountRunnable(w'.s.tasks)
      && (w.s.enabled ==>
            && ContextId(w'.s) in w'.seen && r.esp == w'.seen[ContextId(w'.s)]
            && (w'.s.current >= 0 ==> IsRunnable(w'.s.tasks, w'.s.current))
            && (w'.s.current == -1 ==> forall i :: 0 <= i < |w'.s.tasks| ==> !IsRunnable(w'.s.tasks, i)))
      && (!w.s.enabled ==> w' == w && r.esp == ev.esp)
  {
    var w := After(n, start, size, es);
    hide Step, Resumed, After, PossibleRun, CountRunnable;
    EnabledInterrupts(w, start, start + size, ev);
    hide Interrupting, SavedIsSeen, StacksOwned, Reaping, HeapRuns.Inv, PidsDistinct;
    if w.s.enabled {
      InterruptStep(w, start, start + size, ev);
    } else {
      IdleStep(w, start, start + size, ev);
    }
  }

  lemma {:induction false} EnabledInterrupts(w: World, a: nat, e: nat, ev: Event)
    requires WorldInv(w, a, e) && Allowed(w, ev) && (ev.Timer? || ev.Irq? || ev.ExitCall?)
    ensures w.s.enabled <==> Interrupting(w.s, ev)
  {
  }

  // ---------------------------------------------------------------- bounded waiting

  /** The event makes the scheduler choose a task. */
  predicate Reschedules(s: Sched, e: Event) {
    Interrupting(s, e) && Prepared(s, e).need
  }

  /** Timer ticks until the next one that asks for a switch, across the 32-bit wrap-around. */
  function TicksLeft(t: nat): (r: int)
    requires t < TWO32
    ensures 1 <= r <= 10
  {
    if TWO32 - t <= 10 - t % 10 then TWO32 - t else 10 - t % 10
  }

  /** What bounds the waiting time of slot `j`. */
  function Potential(s: Sched, j: int): int
    requires s.ticks < TWO32
  {
    10 * Distance(|s.tasks|, s.current, j) + TicksLeft(s.ticks)
  }

  lemma {:induction false} DistanceSplit(n: nat, c: int, r: int, j: int)
    requires -1 <= c < n && 0 <= r < n && 0 <= j < n && r != j && Distance(n, c, r) <= Distance(n, c, j)
    ensures Distance(n, r, j) == Distance(n, c, j) - Distance(n, c, r) - 1
  {
  }

  lemma {:induction false} TickCounts(t: nat)
    requires t < TWO32
    ensures var t' := (t + 1) % TWO32;
      if TicksLeft(t) == 1 then t' % 10 == 0 else t' % 10 != 0 && TicksLeft(t') == TicksLeft(t) - 1
  {
  }

  /** One interrupt while slot `j` waits: it stays runnable, the scheduler stays on, a rescheduling brings it
      strictly nearer, and the potential falls, or stays when the timer handler did not run. */
  lemma {:induction false} WaitingInterrupt(s: Sched, e: Event, j: int)
    requires Inv(s) && s.enabled && IsRunnable(s.tasks, j) && j != s.current && Interrupting(s, e)
    requires Resumed(s, e).s.current != j
    ensures var t := Resumed(s, e).s;
      && Inv(t) && t.enabled && IsRunnable(t.tasks, j) && |t.tasks| == |s.tasks|
      && (if Reschedules(s, e) then Distance(|s.tasks|, t.current, j) < Distance(|s.tasks|, s.current, j)
          else t.current == s.current)
      && (if e.Irq? then Potential(t, j) <= Potential(s, j) else Potential(t, j) < Potential(s, j))
  {
    var t, n := Resumed(s, e).s, |s.tasks|;
    InterruptEffect(s, e);
    ChosenIsNearest(s, e, j);
    assert t.tasks[j] == s.tasks[j];
    InterruptTicks(s, e);
    TwoSlots(s, t, j);
    hide Resumed, Prepared, CountRunnable, PidsDistinct, Inv;
    TickCounts(s.ticks);
    hide TicksLeft;
    if Reschedules(s, e) {
      SlotOfDistance(n, s.current, t.current);
      SlotOfDistance(n, s.current, j);
      DistanceSplit(n, s.current, t.current, j);
    }
  }

  /** Two different slots are runnable, so there are at least two. */
  lemma {:induction false} TwoSlots(s: Sched, t: Sched, j: int)
    requires Inv(s) && Inv(t) && t.count == s.count && IsRunnable(s.tasks, j) && IsRunnable(t.tasks, t.current) && t.current != j
    ensures s.count >= 2
  {
    assert j < s.count && t.current < t.count;
  }

  /** The ticks after an interrupt, and whether it reschedules. */
  lemma {:induction false} InterruptTicks(s: Sched, e: Event)
    requires Inv(s) && s.enabled && Interrupting(s, e)
    ensures Resumed(s, e).s.count == s.count
    ensures Resumed(s, e).s.ticks == (if e.Irq? || s.count < 2 then s.ticks else (s.ticks + 1) % TWO32)
    ensures Prepared(s, e).need <==>
      s.need || e.ExitCall? || (e.Timer? && s.count >= 2 && (s.ticks + 1) % TWO32 % 10 == 0)
  {
    PreparedEnters(s, e);
    SwitchEffect(Prepared(s, e), e.esp);
    hide Resumed, Switch, SaveEsp, NextTask, CountRunnable, PidsDistinct, Entering;
  }

  /** After a rescheduling the chosen task is at least as near as any other runnable one. */
  lemma {:induction false} ChosenIsNearest(s: Sched, e: Event, j: int)
    requires Inv(s) && s.enabled && IsRunnable(s.tasks, j) && j != s.current && Interrupting(s, e)
    ensures var t := Resumed(s, e).s;
      && t.enabled && 0 <= t.current < |s.tasks| && IsRunnable(t.tasks, t.current)
      && (!Prepared(s, e).need ==> t.current == s.current)
      && (Prepared(s, e).need ==> Distance(|s.tasks|, s.current, t.current) <= Distance(|s.tasks|, s.current, j))
  {
    var p := Prepared(s, e);
    InterruptEffect(s, e);
    PreparedEnters(s, e);
    SwitchEffect(p, e.esp);
    SaveKeeps(p, e.esp);
    var a := SaveEsp(p, e.esp);
    assert p.tasks[j] == s.tasks[j] && a.tasks[j].state == Runnable;
    assert IsRunnable(p.tasks, j) && IsRunnable(a.tasks, j);
    CountZero(p.tasks);
    NextIsNearest(a.tasks, s.current);
    assert Resumed(s, e).s.tasks[j] == s.tasks[j];
    hide Resumed, Switch, Prepared, SaveEsp, NextTask, CountRunnable, PidsDistinct, Distance;
  }

  lemma {:induction false} WaitingOther(w: World, a: nat, e: nat, ev: Event, j: int)
    requires WorldInv(w, a, e) && Allowed(w, ev) && w.s.enabled && IsRunnable(w.s.tasks, j) && !Interrupting(w.s, ev)
    ensures var t := Step(w, ev).s;
      && t.enabled && IsRunnable(t.tasks, j) && |t.tasks| == |w.s.tasks| && t.current == w.s.current && t.ticks == w.s.ticks
  {
    hide StacksOwned, SavedIsSeen, Reaping, PidsDistinct, HeapRuns.Inv, CountRunnable, Malloc, Free, HeapRuns.Step, FirstUnused;
    match ev {
      case Add =>
        if AddedPid(w.s) != -1 {
          AddKeepsInv(w.s);
        }
      case WaitCall(pid) =>
        if ZombieSlot(w.s, pid, 0) < w.s.count {
          WaitKeepsInv(w.s, pid);
        }
      case Other(op) =>
      case RaiseStart => FlagStep(w, a, e, ev);
      case Want => FlagStep(w, a, e, ev);
      case _ => IdleStep(w, a, e, ev);
    }
  }

  /** How often the scheduler chooses a task in a run, and how often the timer handler runs in it. */
  ghost function CountReschedules(w: World, a: nat, e: nat, es: seq<Event>): nat
    requires WorldInv(w, a, e) && AllowedRun(w, a, e, es)
    decreases |es|
  {
    if es == [] then 0
    else
      StepKeepsInv(w, a, e, es[0]);
      (if Reschedules(w.s, es[0]) then 1 else 0) + CountReschedules(Step(w, es[0]), a, e, es[1..])
  }

  ghost function CountTicks(w: World, a: nat, e: nat, es: seq<Event>): nat
    requires WorldInv(w, a, e) && AllowedRun(w, a, e, es)
    decreases |es|
  {
    if es == [] then 0
    else
      StepKeepsInv(w, a, e, es[0]);
      (if Interrupting(w.s, es[0]) && !es[0].Irq? then 1 else 0) + CountTicks(Step(w, es[0]), a, e, es[1..])
  }

  /** Slot `j` is current at some point of the run, its start included. */
  ghost predicate Dispatched(w: World, a: nat, e: nat, es: seq<Event>, j: int)
    requires WorldInv(w, a, e) && AllowedRun(w, a, e, es)
    decreases |es|
  {
    w.s.current == j || (es != [] && (StepKeepsInv(w, a, e, es[0]); Dispatched(Step(w, es[0]), a, e, es[1..], j)))
  }

  /** As long as a runnable slot is not dispatched, each rescheduling and each interrupt uses up part of
      a fixed budget, whatever tasks are added, exit or are reaped meanwhile. */
  lemma {:induction false} WaitingIsBounded(w: World, a: nat, e: nat, es: seq<Event>, j: int)
    requires WorldInv(w, a, e) && AllowedRun(w, a, e, es)
    requires w.s.enabled && IsRunnable(w.s.tasks, j) && !Dispatched(w, a, e, es, j)
    ensures CountReschedules(w, a, e, es) <= Distance(|w.s.tasks|, w.s.current, j)
    ensures CountTicks(w, a, e, es) < Potential(w.s, j)
    decreases |es|
  {
    SlotOfDistance(|w.s.tasks|, w.s.current, j);
    if es != [] {
      var ev, w' := es[0], Step(w, es[0]);
      StepKeepsInv(w, a, e, ev);
      if Interrupting(w.s, ev) {
        assert w'.s == Resumed(w.s, ev).s;
        WaitingInterrupt(w.s, ev, j);
      } else {
        WaitingOther(w, a, e, ev, j);
      }
      hide Step, WorldInv, Potential, Distance;
      WaitingIsBounded(w', a, e, es[1..], j);
    }
  }

  /** Bounded waiting: while scheduling is on, a runnable task is dispatched within as many reschedulings
      as there are slots, and within ten times as many timer interrupts. */
  lemma {:induction false} BoundedWaiting(w: World, a: nat, e: nat, es: seq<Event>, j: int)
    requires WorldInv(w, a, e) && AllowedRun(w, a, e, es)
    requires w.s.enabled && IsRunnable(w.s.tasks, j)
    ensures CountReschedules(w, a, e, es) >= |w.s.tasks| ==> Dispatched(w, a, e, es, j)
    ensures CountTicks(w, a, e, es) >= 10 * |w.s.tasks| ==> Dispatched(w, a, e, es, j)
  {
    if !Dispatched(w, a, e, es, j) {
      SlotOfDistance(|w.s.tasks|, w.s.current, j);
      WaitingIsBounded(w, a, e, es, j);
    }
  }

  // ---------------------------------------------------------------- reaping over runs

  lemma {:induction false} ReapedStep(w: World, ev: Event)
    requires -1 <= w.s.current < |w.s.tasks| && w.s.count <= |w.s.tasks| && Allowed(w, ev)
    ensures w.reaped <= Step(w, ev).reaped
  {
  }

  lemma {:induction false} ReapedGrows(w: World, a: nat, e: nat, es: seq<Event>, pid: int)
    requires WorldInv(w, a, e) && AllowedRun(w, a, e, es) && pid in w.reaped
    ensures pid in Run(w, a, e, es).reaped
    decreases |es|
  {
    if es != [] {
      StepKeepsInv(w, a, e, es[0]);
      ReapedStep(w, es[0]);
      hide Step, WorldInv;
      ReapedGrows(Step(w, es[0]), a, e, es[1..], pid);
    }
  }

  /** Each pid is reaped at most once: after a successful wait for it, no later wait for it succeeds. */
  lemma {:induction false} ReapedOnce(w: World, a: nat, e: nat, pid: int, es: seq<Event>)
    requires WorldInv(w, a, e) && ZombieSlot(w.s, pid, 0) < w.s.count
    requires WorldInv(Step(w, WaitCall(pid)), a, e) && AllowedRun(Step(w, WaitCall(pid)), a, e, es)
    ensures var u := Run(Step(w, WaitCall(pid)), a, e, es);
      ZombieSlot(u.s, pid, 0) == u.s.count
  {
    WaitStep(w, a, e, pid);
    var w' := Step(w, WaitCall(pid));
    ReapedGrows(w', a, e, es, pid);
    WaitStep(Run(w', a, e, es), a, e, pid);
  }
}
