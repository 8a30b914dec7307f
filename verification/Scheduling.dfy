/** The round-robin scheduler as a state machine: what each entry point of scheduler.c does to the task
    table. The number of slots is a parameter. */
module Scheduling {
  import opened Arithmetic
  import opened Bytes
  import opened HeapBlocks
  import opened HeapMemory
  import opened TaskFrames

  const STACK_SIZE: nat := 4096
  /** Size of the interrupt frame that `task_context_init` builds below the stack top. */
  const FRAME_BYTES: nat := 56

  datatype TaskState = Unused | Runnable | Zombie

  datatype Task = Task(esp: nat, stack: nat, pid: int, code: int, state: TaskState)

  /** All static variables of scheduler.c, and the heap the stacks come from. */
  datatype Sched = Sched(tasks: seq<Task>, count: nat, current: int, active: nat, enabled: bool, need: bool,
                         kernelEsp: nat, nextPid: int, ticks: nat, heap: seq<Block>)

  /** A switch: the new state and the stack pointer that is resumed. */
  datatype Resume = Resume(s: Sched, esp: nat)

  // ---------------------------------------------------------------- choosing the next task

  predicate IsRunnable(tasks: seq<Task>, i: int) {
    0 <= i < |tasks| && tasks[i].state == Runnable
  }

  /** How many slots lie strictly between `current` and `j` in cyclic order; -1 stands before slot 0. */
  function Distance(n: nat, current: int, j: int): int {
    if j > current then j - current - 1 else j - current - 1 + n
  }

  /** Slot at a cyclic distance behind `current`. */
  function SlotAt(n: nat, current: int, d: nat): int {
    if current + 1 + d < n then current + 1 + d else current + 1 + d - n
  }

  /** The first runnable slot behind `current`, over all slots; -1 when there is none. */
  function NextFrom(tasks: seq<Task>, current: int, d: nat): (r: int)
    requires -1 <= current < |tasks| && d <= |tasks|
    ensures r == -1 ==> forall e :: d <= e < |tasks| ==> !IsRunnable(tasks, SlotAt(|tasks|, current, e))
    ensures r != -1 ==> IsRunnable(tasks, r) && d <= Distance(|tasks|, current, r)
    ensures r != -1 ==> forall e :: d <= e < Distance(|tasks|, current, r) ==> !IsRunnable(tasks, SlotAt(|tasks|, current, e))
    decreases |tasks| - d
  {
    if d == |tasks| then -1
    else
      var j := SlotAt(|tasks|, current, d);
      if IsRunnable(tasks, j) then j else NextFrom(tasks, current, d + 1)
  }

  function NextTask(tasks: seq<Task>, current: int): (r: int)
    requires -1 <= current < |tasks|
  {
    NextFrom(tasks, current, 0)
  }

  lemma {:induction false} DistanceOfSlot(n: nat, current: int, d: nat)
    requires -1 <= current < n && d < n
    ensures 0 <= SlotAt(n, current, d) < n && Distance(n, current, SlotAt(n, current, d)) == d
  {
  }

  lemma {:induction false} SlotOfDistance(n: nat, current: int, j: int)
    requires -1 <= current < n && 0 <= j < n
    ensures 0 <= Distance(n, current, j) < n && SlotAt(n, current, Distance(n, current, j)) == j
  {
  }

  /** The chosen task is the runnable one at the smallest cyclic distance; none is chosen only when none
      is runnable. */
  lemma {:induction false} NextIsNearest(tasks: seq<Task>, current: int)
    requires -1 <= current < |tasks|
    ensures var r := NextTask(tasks, current);
      && (r == -1 <==> forall j :: 0 <= j < |tasks| ==> !IsRunnable(tasks, j))
      && (r != -1 ==> IsRunnable(tasks, r))
      && (r != -1 ==> forall j :: IsRunnable(tasks, j) ==> Distance(|tasks|, current, r) <= Distance(|tasks|, current, j))
  {
    var n, r := |tasks|, NextTask(tasks, current);
    forall j | IsRunnable(tasks, j)
      ensures r != -1 && Distance(n, current, r) <= Distance(n, current, j)
    {
      SlotOfDistance(n, current, j);
    }
  }

  // ---------------------------------------------------------------- the entry points

  function FirstUnused(tasks: seq<Task>): (i: nat)
    ensures i <= |tasks| && (i < |tasks| ==> tasks[i].state == Unused)
    ensures forall j :: 0 <= j < i ==> tasks[j].state != Unused
  {
    if tasks == [] || tasks[0].state == Unused then 0 else 1 + FirstUnused(tasks[1..])
  }

  /** The stack pointer of a task that has never run. */
  function InitialEsp(stack: nat): nat {
    stack + STACK_SIZE - FRAME_BYTES
  }

  /** A slot and a stack are left. */
  predicate HasRoom(s: Sched) {
    FirstUnused(s.tasks) < |s.tasks| && Malloc(s.heap, STACK_SIZE).ptr != 0
  }

  /** `scheduler_add` of a non-null entry point; the pid is -1 when no slot or no stack is left. */
  function AddTask(s: Sched): Sched {
    if !HasRoom(s) then s
    else
      var i, r := FirstUnused(s.tasks), Malloc(s.heap, STACK_SIZE);
      s.(tasks := s.tasks[i := Task(InitialEsp(r.ptr), r.ptr, s.nextPid, 0, Runnable)],
         nextPid := s.nextPid + 1, active := s.active + 1,
         count := if i >= s.count then i + 1 else s.count, heap := r.blocks)
  }

  function AddedPid(s: Sched): int {
    if HasRoom(s) then s.nextPid else -1
  }

  /** Memory after `scheduler_add`: the header writes of `kmalloc`, then the first frame of the task. */
  function Created(mem: seq<byte>, heap: seq<Block>, entry: nat): (r: seq<byte>)
    ensures |r| == |mem|
  {
    var p := Malloc(heap, STACK_SIZE).ptr;
    if p + STACK_SIZE <= |mem| && entry < TWO32 then
      Pushed(AllocMemory(mem, heap, STACK_SIZE), InitialEsp(p), InitialFrame(entry))
    else mem
  }

  /** `scheduler_tick`: the counter is 32 bits wide and every tenth tick asks for a switch. */
  function Tick(s: Sched): Sched {
    if !s.enabled || s.count < 2 then s
    else
      var t := (s.ticks + 1) % TWO32;
      s.(ticks := t, need := s.need || t % 10 == 0)
  }

  /** The context being interrupted gets its stack pointer saved. */
  function SaveEsp(s: Sched, esp: nat): Sched
    requires s.current < |s.tasks|
  {
    if s.current >= 0 then s.(tasks := s.tasks[s.current := s.tasks[s.current].(esp := esp)])
    else s.(kernelEsp := esp)
  }

  /** `scheduler_switch_from_isr` */
  function Switch(s: Sched, esp: nat): Resume
    requires -1 <= s.current < |s.tasks|
  {
    if !s.enabled || s.count == 0 then Resume(s, esp)
    else
      var a := SaveEsp(s, esp);
      if !a.need then Resume(a, esp)
      else
        var b := a.(need := false);
        if b.active == 0 then Resume(b.(current := -1, enabled := false), b.kernelEsp)
        else
          var j := NextTask(b.tasks, b.current);
          if j == -1 then Resume(b.(current := -1), b.kernelEsp)
          else Resume(b.(current := j), b.tasks[j].esp)
  }

  /** `int $0x20`: the timer handler, then the switch. */
  function Interrupt(s: Sched, esp: nat): Resume
    requires -1 <= s.current < |s.tasks|
  {
    Switch(Tick(s), esp)
  }

  /** `scheduler_start` */
  function Start(s: Sched, esp: nat): Resume
    requires -1 <= s.current < |s.tasks|
  {
    if s.active == 0 then Resume(s, esp)
    else Interrupt(s.(enabled := true, current := -1, need := true), esp)
  }

  /** `task_yield` */
  function Yield(s: Sched, esp: nat): Resume
    requires -1 <= s.current < |s.tasks|
  {
    if !s.enabled || s.count < 2 then Resume(s, esp)
    else Interrupt(s.(need := true), esp)
  }

  /** `scheduler_exit` of the running task together with its switch. */
  function Exit(s: Sched, code: int, esp: nat): Resume
    requires 0 <= s.current < |s.tasks|
  {
    if !s.enabled || s.count == 0 then Resume(s, esp)
    else
      var t := s.tasks[s.current].(state := Zombie, code := code);
      Interrupt(s.(tasks := s.tasks[s.current := t], active := if s.active > 0 then s.active - 1 else 0, need := true), esp)
  }

  /** Slot of the zombie with this pid among the first `count` slots, or `count`. */
  function ZombieSlot(s: Sched, pid: int, i: nat): (r: nat)
    requires i <= s.count <= |s.tasks|
    ensures i <= r <= s.count
    ensures r < s.count ==> s.tasks[r].pid == pid && s.tasks[r].state == Zombie
    ensures forall k :: i <= k < r ==> !(s.tasks[k].pid == pid && s.tasks[k].state == Zombie)
    decreases s.count - i
  {
    if i == s.count || (s.tasks[i].pid == pid && s.tasks[i].state == Zombie) then i else ZombieSlot(s, pid, i + 1)
  }

  /** `scheduler_wait`: the stack goes back to the heap and the slot becomes unused. */
  function Wait(s: Sched, pid: int): Sched
    requires s.count <= |s.tasks|
  {
    var i := ZombieSlot(s, pid, 0);
    if i == s.count then s
    else
      var t := s.tasks[i];
      s.(tasks := s.tasks[i := t.(stack := 0, state := Unused)],
         heap := if t.stack != 0 then Free(s.heap, t.stack) else s.heap)
  }

  // ---------------------------------------------------------------- the invariant

  function CountRunnable(tasks: seq<Task>): nat {
    if tasks == [] then 0
    else CountRunnable(tasks[..|tasks| - 1]) + if tasks[|tasks| - 1].state == Runnable then 1 else 0
  }

  /** What holds between any two steps. A switch may have been asked for and not have come yet; while the
      kernel has started scheduling and still runs, it has. */
  ghost predicate Inv(s: Sched) {
    && 0 < |s.tasks| && s.count <= |s.tasks| && -1 <= s.current < |s.tasks|
    && (forall i :: s.count <= i < |s.tasks| ==> s.tasks[i].state == Unused)
    && s.active == CountRunnable(s.tasks)
    && (s.current >= 0 ==> s.enabled && IsRunnable(s.tasks, s.current))
    && (s.enabled && s.current == -1 ==> s.need && s.active > 0)
    && (s.need ==> s.enabled) && s.ticks < TWO32 && 1 <= s.nextPid
    && PidsDistinct(s)
  }

  /** Live slots have distinct pids below the next one to be given out. */
  ghost predicate PidsDistinct(s: Sched) {
    && (forall i :: 0 <= i < |s.tasks| && s.tasks[i].state != Unused ==> 1 <= s.tasks[i].pid < s.nextPid)
    && (forall i, j :: 0 <= i < j < |s.tasks| && s.tasks[i].state != Unused && s.tasks[j].state != Unused ==>
          s.tasks[i].pid != s.tasks[j].pid)
  }

  lemma {:induction false} CountUpdate(tasks: seq<Task>, i: nat, t: Task)
    requires i < |tasks|
    ensures CountRunnable(tasks[i := t]) == CountRunnable(tasks)
      + (if t.state == Runnable then 1 else 0) - (if tasks[i].state == Runnable then 1 else 0)
  {
    var n := |tasks| - 1;
    if i < n {
      CountUpdate(tasks[..n], i, t);
      assert tasks[i := t][..n] == tasks[..n][i := t];
    } else {
      assert tasks[i := t][..n] == tasks[..n];
    }
  }

  lemma {:induction false} CountZero(tasks: seq<Task>)
    ensures CountRunnable(tasks) == 0 <==> forall i :: 0 <= i < |tasks| ==> !IsRunnable(tasks, i)
  {
    if tasks != [] {
      var n := |tasks| - 1;
      CountZero(tasks[..n]);
      assert forall i :: 0 <= i < n ==> tasks[..n][i] == tasks[i];
      assert IsRunnable(tasks, n) <==> tasks[n].state == Runnable;
      assert forall i :: 0 <= i < n ==> (IsRunnable(tasks, i) <==> IsRunnable(tasks[..n], i));
    }
  }

  /** Changing esp fields changes nobody's status. */
  lemma {:induction false} SaveKeeps(s: Sched, esp: nat)
    requires -1 <= s.current < |s.tasks|
    ensures var a := SaveEsp(s, esp);
      && |a.tasks| == |s.tasks| && CountRunnable(a.tasks) == CountRunnable(s.tasks)
      && (forall i :: 0 <= i < |s.tasks| ==>
            a.tasks[i] == s.tasks[i].(esp := if i == s.current then esp else s.tasks[i].esp))
  {
    if s.current >= 0 {
      CountUpdate(s.tasks, s.current, s.tasks[s.current].(esp := esp));
    }
  }

  /** The state in which a switch is entered: as `Inv`, except that the current slot may just have
      exited and a switch may be pending. */
  ghost predicate Entering(s: Sched) {
    && 0 < |s.tasks| && 0 < s.count <= |s.tasks| && -1 <= s.current < |s.tasks| && s.enabled
    && (forall i :: s.count <= i < |s.tasks| ==> s.tasks[i].state == Unused)
    && s.active == CountRunnable(s.tasks)
    && (!s.need ==> IsRunnable(s.tasks, s.current))
    && s.ticks < TWO32 && 1 <= s.nextPid && PidsDistinct(s)
  }

  /** Status, pids and exit codes of all slots agree. */
  ghost predicate SameStatus(s: Sched, t: Sched) {
    && |t.tasks| == |s.tasks| && t.nextPid == s.nextPid
    && forall i :: 0 <= i < |s.tasks| ==> t.tasks[i] == s.tasks[i].(esp := t.tasks[i].esp)
  }

  lemma {:induction false} PidsKept(s: Sched, t: Sched)
    requires SameStatus(s, t) && PidsDistinct(s)
    ensures PidsDistinct(t)
  {
  }

  /** What the switch does, field by field. Its fall-through is never reached: it resumes the interrupted
      task, the nearest runnable task, or, when nothing is runnable, the kernel. */
  lemma {:induction false} SwitchEffect(s: Sched, esp: nat)
    requires Entering(s)
    ensures var r := Switch(s, esp);
      && r.s.tasks == SaveEsp(s, esp).tasks && r.s.count == s.count && r.s.active == s.active && !r.s.need
      && r.s.heap == s.heap && r.s.nextPid == s.nextPid && r.s.ticks == s.ticks
      && r.s.kernelEsp == (if s.current == -1 then esp else s.kernelEsp)
      && (!s.need ==> r.s.current == s.current && r.esp == esp && r.s.enabled)
      && (s.need && s.active > 0 ==> r.s.current == NextTask(SaveEsp(s, esp).tasks, s.current) && IsRunnable(r.s.tasks, r.s.current))
      && (s.need && s.active == 0 ==> r.s.current == -1)
      && (r.s.enabled <==> r.s.current >= 0) && -1 <= r.s.current < |s.tasks|
      && r.esp == (if r.s.current >= 0 then r.s.tasks[r.s.current].esp else r.s.kernelEsp)
  {
    SaveKeeps(s, esp);
    CountZero(SaveEsp(s, esp).tasks);
    NextIsNearest(SaveEsp(s, esp).tasks, s.current);
    hide NextTask, CountRunnable, PidsDistinct;
  }

  /** The switch restores the invariant; the kernel resumes exactly when no task is runnable. */
  lemma {:induction false} SwitchKeepsInv(s: Sched, esp: nat)
    requires Entering(s)
    ensures var r := Switch(s, esp);
      && Inv(r.s) && SameStatus(s, r.s)
      && (r.s.current == -1 <==> forall i :: 0 <= i < |s.tasks| ==> !IsRunnable(r.s.tasks, i))
  {
    var r := Switch(s, esp);
    SwitchEffect(s, esp);
    SaveKeeps(s, esp);
    CountZero(s.tasks);
    CountZero(r.s.tasks);
    hide Switch, SaveEsp, NextTask, CountRunnable;
    assert SameStatus(s, r.s);
    PidsKept(s, r.s);
    hide PidsDistinct;
    assert forall i :: 0 <= i < |s.tasks| ==> (IsRunnable(r.s.tasks, i) <==> IsRunnable(s.tasks, i));
  }
}
