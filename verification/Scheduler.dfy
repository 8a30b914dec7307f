/** The scheduler of scheduler.c with its static variables, proved against the state machine. */
module Scheduler {
  import opened Arithmetic
  import opened Bytes
  import opened HeapBlocks
  import opened HeapMemory
  import opened Heap
  import opened Scheduling
  import opened TaskFrames

  /** Slots from `count` on are unused and the current slot, if any, is below it. */
  ghost predicate TableOk(s: Sched) {
    && s.count <= |s.tasks| && -1 <= s.current < |s.tasks| && (s.current == -1 || s.current < s.count)
    && forall i :: s.count <= i < |s.tasks| ==> s.tasks[i].state == Unused
  }

  lemma {:induction false} DistanceOrder(n: nat, m: nat, current: int, j: int, k: int)
    requires -1 <= current < m <= n && 0 <= j < m && 0 <= k < m && Distance(m, current, j) <= Distance(m, current, k)
    ensures Distance(n, current, j) <= Distance(n, current, k)
  {
  }

  lemma {:induction false} DistanceInjective(n: nat, current: int, j: int, k: int)
    requires -1 <= current < n && 0 <= j < n && 0 <= k < n && Distance(n, current, j) == Distance(n, current, k)
    ensures j == k
  {
  }

  /** The scan modulo `count` finds what a scan over all slots finds. */
  lemma {:induction false} ScanAgrees(tasks: seq<Task>, count: nat, current: int, i: nat)
    requires -1 <= current < count <= |tasks| && i <= count
    requires forall k :: count <= k < |tasks| ==> tasks[k].state == Unused
    requires forall e :: 0 <= e < i ==> !IsRunnable(tasks, SlotAt(count, current, e))
    ensures i < count && IsRunnable(tasks, SlotAt(count, current, i)) ==> NextTask(tasks, current) == SlotAt(count, current, i)
    ensures i == count ==> NextTask(tasks, current) == -1
  {
    var n := |tasks|;
    NextIsNearest(tasks, current);
    var r := NextTask(tasks, current);
    hide NextTask;
    if r != -1 {
      SlotOfDistance(count, current, r);
      assert Distance(count, current, r) >= i;
      if i < count && IsRunnable(tasks, SlotAt(count, current, i)) {
        var j := SlotAt(count, current, i);
        DistanceOfSlot(count, current, i);
        DistanceOrder(n, count, current, j, r);
        DistanceInjective(n, current, j, r);
      }
    }
  }

  lemma {:induction false} CyclicStep(m: nat, current: int, next: int, i: nat)
    requires -1 <= current < m && i < m && next == if i == 0 then current else SlotAt(m, current, i - 1)
    ensures (next + 1) % m == SlotAt(m, current, i) && 0 <= SlotAt(m, current, i) < m
  {
    DistanceOfSlot(m, current, i);
    if next + 1 < m {
      SmallMod(next + 1, m);
    }
  }

  lemma {:induction false} SmallMod(x: nat, m: nat)
    requires x < m
    ensures x % m == x
  {
  }

  lemma {:induction false} NothingPushed(mem: seq<byte>, at: nat)
    requires at <= |mem|
    ensures Words([]) && Pushed(mem, at, []) == mem
  {
  }

  lemma {:induction false} NewStackInside(bs: seq<Block>, bs': seq<Block>, stack: nat, a: nat, e: nat)
    requires Malloc(bs, STACK_SIZE) == Allocation(stack, bs') && stack != 0 && Proper(bs', a, e)
    ensures stack + STACK_SIZE <= e
  {
    NewPayloadClear(bs, STACK_SIZE, a, e, stack + STACK_SIZE - 1);
  }

  /** The frame on a new stack leaves the headers alone. */
  lemma {:induction false} FrameKeepsHeap(mem: seq<byte>, bs: seq<Block>, entry: nat, a: nat, e: nat)
    requires Malloc(bs, STACK_SIZE).ptr != 0 && Proper(Malloc(bs, STACK_SIZE).blocks, a, e)
    requires entry < TWO32 && e < TWO32 == |mem|
    requires Linked(AllocMemory(mem, bs, STACK_SIZE), Malloc(bs, STACK_SIZE).blocks, 0)
    ensures Linked(Created(mem, bs, entry), Malloc(bs, STACK_SIZE).blocks, 0)
    ensures Malloc(bs, STACK_SIZE).ptr + STACK_SIZE <= |mem|
  {
    var p, bs', mem1 := Malloc(bs, STACK_SIZE).ptr, Malloc(bs, STACK_SIZE).blocks, AllocMemory(mem, bs, STACK_SIZE);
    hide Malloc, AllocMemory, Proper, Linked, Pushed, InHeaders;
    NewStackInside(bs, bs', p, a, e);
    PushedWords(mem1, InitialEsp(p), InitialFrame(entry));
    forall q | 0 <= q < |mem| && InHeaders(bs', q)
      ensures Created(mem, bs, entry)[q] == mem1[q]
    {
      if p <= q < p + STACK_SIZE {
        NewPayloadClear(bs, STACK_SIZE, a, e, q);
      }
    }
    LinkedFrame(mem1, Created(mem, bs, entry), bs', 0);
  }

  class TaskScheduler {
    var tasks: array<Task>
    var taskCount: nat
    var currentTask: int
    var activeTasks: nat
    var enabled: bool
    var needResched: bool
    var kernelEsp: nat
    var nextPid: int
    var ticks: nat
    var heap: KernelHeap

    ghost function State(): Sched
      reads this, tasks, heap
    {
      Sched(tasks[..], taskCount, currentTask, activeTasks, enabled, needResched, kernelEsp, nextPid, ticks, heap.blocks)
    }

    ghost predicate Valid()
      reads this, tasks, heap
    {
      TableOk(State()) && heap.Valid()
    }

    /** `scheduler_init` with `n` slots. */
    constructor (n: nat, h: KernelHeap)
      requires h.Valid()
      ensures Valid() && heap == h && fresh(tasks)
      ensures State() == Sched(seq(n, _ => Task(0, 0, 0, 0, Unused)), 0, -1, 0, false, false, 0, 1, 0, h.blocks)
    {
      tasks := new Task[n](_ => Task(0, 0, 0, 0, Unused));
      taskCount, currentTask, activeTasks := 0, -1, 0;
      enabled, needResched, kernelEsp, nextPid, ticks, heap := false, false, 0, 1, 0, h;
      new;
      assert tasks[..] == seq(n, _ => Task(0, 0, 0, 0, Unused));
    }

    /** `scheduler_add`; an entry point of 0 is null. */
    method Add(entry: nat) returns (pid: int)
      requires Valid() && entry < TWO32
      modifies this`taskCount, this`activeTasks, this`nextPid, tasks, heap`mem, heap`blocks
      ensures Valid()
      ensures entry == 0 ==> pid == -1 && State() == old(State())
      ensures entry != 0 ==> pid == old(AddedPid(State())) && State() == old(AddTask(State()))
      ensures heap.mem == old(if entry != 0 && HasRoom(State()) then Created(heap.mem, heap.blocks, entry) else heap.mem)
    {
      hide Malloc, Stamped, FirstUnused, Proper, Linked, Pushed;
      if entry == 0 {
        return -1;
      }
      var slot := FindUnused();
      if slot == tasks.Length {
        return -1;
      }
      var stack := heap.Kmalloc(STACK_SIZE);
      if stack == 0 {
        MallocFails(old(heap.blocks), STACK_SIZE);
        return -1;
      }
      NewStackInside(old(heap.blocks), heap.blocks, stack, heap.heapStart, heap.heapEnd);
      var esp := TaskContextInit(entry, stack + STACK_SIZE);
      pid := FillSlot(slot, esp, stack);
      FrameKeepsHeap(old(heap.mem), old(heap.blocks), entry, heap.heapStart, heap.heapEnd);
    }

    /** The search for a slot in `scheduler_add`. */
    method FindUnused() returns (slot: nat)
      ensures slot == FirstUnused(tasks[..])
    {
      slot := 0;
      while slot < tasks.Length && tasks[slot].state != Unused
        invariant slot <= tasks.Length && forall j :: 0 <= j < slot ==> tasks[j].state != Unused
      {
        slot := slot + 1;
      }
      FirstUnusedIs(tasks[..], slot);
    }

    /** `*--sp = v`, below the words `ws` that were pushed so far. */
    method Push(sp: nat, v: nat, ghost mem: seq<byte>, ghost ws: seq<nat>) returns (r: nat, ghost pushed: seq<nat>)
      requires 4 <= sp && sp + 4 * |ws| <= |mem| && v < TWO32 && Words(ws) && heap.mem == Pushed(mem, sp, ws)
      modifies heap`mem
      ensures r == sp - 4 && pushed == [v] + ws && Words(pushed) && heap.mem == Pushed(mem, r, pushed)
    {
      r, pushed := sp - 4, [v] + ws;
      heap.mem := PutU32(heap.mem, r, v);
      assert pushed[1..] == ws;
    }

    /** `task_context_init` */
    method TaskContextInit(entry: nat, stackTop: nat) returns (esp: nat)
      requires FRAME_BYTES <= stackTop <= |heap.mem| && entry < TWO32
      modifies heap`mem
      ensures esp == stackTop - FRAME_BYTES
      ensures heap.mem == Pushed(old(heap.mem), esp, InitialFrame(entry))
    {
      hide Pushed, Words;
      ghost var mem, ws: seq<nat> := heap.mem, [];
      NothingPushed(mem, stackTop);
      esp, ws := Push(stackTop, FLAGS, mem, ws);
      esp, ws := Push(esp, KERNEL_CODE, mem, ws);
      esp, ws := Push(esp, entry, mem, ws);
      assert ws == [entry, KERNEL_CODE, FLAGS];
      esp, ws := Push(esp, 0, mem, ws);
      esp, ws := Push(esp, 0, mem, ws);
      esp, ws := Push(esp, 0, mem, ws);
      esp, ws := Push(esp, 0, mem, ws);
      esp, ws := Push(esp, 0, mem, ws);
      assert ws == [0, 0, 0, 0, 0, entry, KERNEL_CODE, FLAGS];
      esp, ws := Push(esp, 0, mem, ws);
      esp, ws := Push(esp, 0, mem, ws);
      esp, ws := Push(esp, 0, mem, ws);
      esp, ws := Push(esp, 0, mem, ws);
      esp, ws := Push(esp, 0, mem, ws);
      esp, ws := Push(esp, KERNEL_DATA, mem, ws);
      assert ws == InitialFrame(entry);
    }

    /** The end of `scheduler_add`, once the slot, the stack and its frame are there. */
    method FillSlot(slot: nat, esp: nat, stack: nat) returns (pid: int)
      requires TableOk(State()) && slot < tasks.Length && tasks[slot].state == Unused
      modifies this`taskCount, this`activeTasks, this`nextPid, tasks
      ensures TableOk(State()) && pid == old(nextPid)
      ensures var s := old(State());
        State() == s.(tasks := s.tasks[slot := Task(esp, stack, s.nextPid, 0, Runnable)],
                      nextPid := s.nextPid + 1, active := s.active + 1,
                      count := if slot >= s.count then slot + 1 else s.count)
    {
      tasks[slot] := Task(esp, stack, nextPid, 0, Runnable);
      pid := nextPid;
      nextPid := nextPid + 1;
      activeTasks := activeTasks + 1;
      if slot >= taskCount {
        taskCount := slot + 1;
      }
      assert tasks[..] == old(tasks[..])[slot := Task(esp, stack, old(nextPid), 0, Runnable)];
    }

    /** `scheduler_tick` */
    method OnTick()
      modifies this`ticks, this`needResched
      ensures State() == old(Tick(State()))
    {
      if !enabled || taskCount < 2 {
        return;
      }
      ticks := (ticks + 1) % TWO32;
      if ticks % 10 == 0 {
        needResched := true;
      }
    }

    /** The scan loop of `scheduler_switch_from_isr`: modulo the number of slots ever used, it finds what
        a scan over all slots would find. */
    method ScanTasks() returns (next: int)
      requires TableOk(State()) && taskCount > 0
      ensures next == NextTask(tasks[..], currentTask)
      ensures next == -1 || (0 <= next < taskCount && tasks[next].state == Runnable)
    {
      hide NextTask;
      next := currentTask;
      var i := 0;
      while i < taskCount
        invariant i <= taskCount
        invariant next == if i == 0 then currentTask else SlotAt(taskCount, currentTask, i - 1)
        invariant forall e :: 0 <= e < i ==> !IsRunnable(tasks[..], SlotAt(taskCount, currentTask, e))
      {
        CyclicStep(taskCount, currentTask, next, i);
        next := (next + 1) % taskCount;
        if tasks[next].state == Runnable {
          ScanAgrees(tasks[..], taskCount, currentTask, i);
          return;
        }
        i := i + 1;
      }
      ScanAgrees(tasks[..], taskCount, currentTask, i);
      next := -1;
    }

    /** `scheduler_switch_from_isr` */
    method SwitchFromIsr(currentEsp: nat) returns (esp: nat)
      requires TableOk(State())
      modifies this`currentTask, this`enabled, this`needResched, this`kernelEsp, tasks
      ensures Resume(State(), esp) == old(Switch(State(), currentEsp))
      ensures TableOk(State())
    {
      hide NextTask;
      if !enabled || taskCount == 0 {
        return currentEsp;
      }
      if currentTask >= 0 {
        tasks[currentTask] := tasks[currentTask].(esp := currentEsp);
        assert tasks[..] == old(tasks[..])[currentTask := old(tasks[currentTask]).(esp := currentEsp)];
      } else {
        kernelEsp := currentEsp;
      }
      if !needResched {
        return currentEsp;
      }
      needResched := false;
      if activeTasks == 0 {
        currentTask := -1;
        enabled := false;
        return kernelEsp;
      }
      var next := ScanTasks();
      if next >= 0 {
        currentTask := next;
        return tasks[next].esp;
      }
      currentTask := -1;
      return kernelEsp;
    }

    /** `int $0x20`: the stub calls the timer handler and then the switch. */
    method RaiseInterrupt(currentEsp: nat) returns (esp: nat)
      requires TableOk(State())
      modifies this`ticks, this`currentTask, this`enabled, this`needResched, this`kernelEsp, tasks
      ensures Resume(State(), esp) == old(Interrupt(State(), currentEsp))
      ensures TableOk(State())
    {
      hide Switch;
      OnTick();
      esp := SwitchFromIsr(currentEsp);
    }

    /** `scheduler_start` */
    method StartScheduling(currentEsp: nat) returns (esp: nat)
      requires TableOk(State())
      modifies this`ticks, this`currentTask, this`enabled, this`needResched, this`kernelEsp, tasks
      ensures Resume(State(), esp) == old(Start(State(), currentEsp))
      ensures TableOk(State())
    {
      hide Interrupt;
      if activeTasks == 0 {
        return currentEsp;
      }
      enabled := true;
      currentTask := -1;
      needResched := true;
      esp := RaiseInterrupt(currentEsp);
    }

    /** `task_yield` */
    method TaskYield(currentEsp: nat) returns (esp: nat)
      requires TableOk(State())
      modifies this`ticks, this`currentTask, this`enabled, this`needResched, this`kernelEsp, tasks
      ensures Resume(State(), esp) == old(Yield(State(), currentEsp))
      ensures TableOk(State())
    {
      hide Interrupt;
      if !enabled || taskCount < 2 {
        return currentEsp;
      }
      needResched := true;
      esp := RaiseInterrupt(currentEsp);
    }

    /** `scheduler_exit`, called by the running task. */
    method ExitTask(code: int, currentEsp: nat) returns (esp: nat)
      requires TableOk(State()) && currentTask >= 0
      modifies this`ticks, this`currentTask, this`enabled, this`needResched, this`kernelEsp, this`activeTasks, tasks
      ensures Resume(State(), esp) == old(Exit(State(), code, currentEsp))
      ensures TableOk(State())
    {
      hide Interrupt;
      if !enabled || taskCount == 0 {
        return currentEsp;
      }
      tasks[currentTask] := tasks[currentTask].(state := Zombie, code := code);
      assert tasks[..] == old(tasks[..])[currentTask := old(tasks[currentTask]).(state := Zombie, code := code)];
      if activeTasks > 0 {
        activeTasks := activeTasks - 1;
      }
      needResched := true;
      esp := RaiseInterrupt(currentEsp);
    }

    /** `scheduler_wait`: 0 and the exit code for a zombie of that pid, -1 otherwise. The stack of a
        zombie must be a block of the heap, as it is in every reachable state. */
    method WaitFor(pid: int) returns (r: int, code: int)
      requires Valid()
      requires var i := ZombieSlot(State(), pid, 0);
        i < taskCount && tasks[i].stack != 0 ==> IndexOf(heap.blocks, tasks[i].stack) < |heap.blocks|
      modifies tasks, heap`mem, heap`blocks
      ensures Valid() && State() == old(Wait(State(), pid))
      ensures old(ZombieSlot(State(), pid, 0)) == taskCount <==> r == -1
      ensures r != -1 ==> r == 0 && code == old(tasks[..])[old(ZombieSlot(State(), pid, 0))].code
    {
      hide Free, FreeMemory, ZombieSlot, Proper, Linked;
      code := 0;
      var i := FindZombie(pid);
      if i == taskCount {
        return -1, 0;
      }
      code := tasks[i].code;
      var stack := tasks[i].stack;
      ClearSlot(i);
      if stack != 0 {
        heap.Kfree(stack);
      }
      return 0, code;
    }

    /** The search of `scheduler_wait`. */
    method FindZombie(pid: int) returns (i: nat)
      requires TableOk(State())
      ensures i == ZombieSlot(State(), pid, 0)
    {
      i := 0;
      while i < taskCount && !(tasks[i].pid == pid && tasks[i].state == Zombie)
        invariant i <= taskCount && ZombieSlot(State(), pid, 0) == ZombieSlot(State(), pid, i)
      {
        i := i + 1;
      }
    }

    /** A reaped slot: no stack, unused. */
    method ClearSlot(i: nat)
      requires TableOk(State()) && i < taskCount
      modifies tasks
      ensures TableOk(State()) || old(currentTask) == i
      ensures State() == old(State()).(tasks := old(State()).tasks[i := old(tasks[i]).(stack := 0, state := Unused)])
    {
      tasks[i] := tasks[i].(stack := 0);
      tasks[i] := tasks[i].(state := Unused);
      assert tasks[..] == old(tasks[..])[i := old(tasks[i]).(stack := 0, state := Unused)];
    }
  }

  lemma {:induction false} FirstUnusedIs(tasks: seq<Task>, i: nat)
    requires i <= |tasks| && (i < |tasks| ==> tasks[i].state == Unused)
    requires forall j :: 0 <= j < i ==> tasks[j].state != Unused
    ensures FirstUnused(tasks) == i
  {
    var k := FirstUnused(tasks);
    assert !(k < i) && !(i < k);
  }
}
