/** A first run: two tasks are added and scheduling starts. */
module SchedulerExample {
  import opened HeapBlocks
  import opened Scheduling
  import opened SchedulerRuns

  /** A heap that ends in enough free space has room for a stack. */
  lemma {:induction false} StackAvailable(bs: seq<Block>, last: Block)
    requires bs != [] && bs[|bs| - 1] == last && last.free && last.size >= STACK_SIZE
    ensures Malloc(bs, STACK_SIZE).ptr != 0
  {
    assert Align8(STACK_SIZE) == STACK_SIZE;
    assert FirstFit(bs, STACK_SIZE) < |bs|;
  }

  /** The first stack comes from the front of the one free block. */
  lemma {:induction false} FirstStack(start: nat, size: nat)
    requires size > 2 * (STACK_SIZE + HEADER) + HEADER + 8
    ensures var r := Malloc([Block(start, size - HEADER, true)], STACK_SIZE);
      r.ptr == start + HEADER &&
      r.blocks == [Block(start, STACK_SIZE, false), Block(start + HEADER + STACK_SIZE, size - 2 * HEADER - STACK_SIZE, true)]
  {
    var bs := [Block(start, size - HEADER, true)];
    assert Align8(STACK_SIZE) == STACK_SIZE;
    assert FirstFit(bs, STACK_SIZE) == 0;
    assert bs[..0] == [] && bs[1..] == [];
  }

  /** On a fresh heap with room for two stacks, two tasks can be added and started: the first one runs,
      the second one waits, and by bounded waiting it runs within two reschedulings. */
  lemma {:induction false} TwoTasks(start: nat, size: nat, esp: nat)
    requires size > 2 * (STACK_SIZE + HEADER) + HEADER + 8
    ensures PossibleRun(2, start, size, [Add, Add, RaiseStart, Timer(esp)])
    ensures var s := After(2, start, size, [Add, Add, RaiseStart, Timer(esp)]).s;
      s.enabled && s.current == 0 && IsRunnable(s.tasks, 1) && s.active == 2
  {
    hide Malloc, WorldInv, Initial, Step, Allowed, AllowedRun, Run, IsRunnable;
    var a, e, w0 := start, start + size, Initial(2, start, size);
    FirstAdd(start, size);
    var w1 := Step(w0, Add);
    SecondAdd(w1, a, e);
    var w2 := Step(w1, Add);
    Launched(w2, a, e, esp);
    RunFirst(w1, a, e, Add, [RaiseStart, Timer(esp)]);
    RunFirst(w0, a, e, Add, [Add] + [RaiseStart, Timer(esp)]);
    assert [Add] + ([Add] + [RaiseStart, Timer(esp)]) == [Add, Add, RaiseStart, Timer(esp)];
  }

  /** A run starts with its first event. */
  lemma {:induction false} RunFirst(w: World, a: nat, e: nat, ev: Event, es: seq<Event>)
    requires WorldInv(w, a, e) && -1 <= w.s.current < |w.s.tasks| && w.s.count <= |w.s.tasks|
    requires Allowed(w, ev) && WorldInv(Step(w, ev), a, e) && AllowedRun(Step(w, ev), a, e, es)
    ensures AllowedRun(w, a, e, [ev] + es) && Run(w, a, e, [ev] + es) == Run(Step(w, ev), a, e, es)
  {
    hide WorldInv, Allowed, Step;
    assert ([ev] + es)[1..] == es;
  }

  /** Starting two tasks from the kernel makes the first one current. */
  lemma {:induction false} Launched(w: World, a: nat, e: nat, esp: nat)
    requires WorldInv(w, a, e)
    requires |w.s.tasks| == 2 && w.s.tasks[0].state == Runnable && w.s.tasks[1].state == Runnable
    requires w.s.count == 2 && w.s.active == 2 && w.s.current == -1 && !w.s.enabled
    ensures AllowedRun(w, a, e, [RaiseStart, Timer(esp)])
    ensures var s := Run(w, a, e, [RaiseStart, Timer(esp)]).s;
      s.enabled && s.current == 0 && IsRunnable(s.tasks, 1) && s.active == 2
  {
    hide WorldInv, Step, Allowed, Interrupting, IsRunnable, Resumed;
    RaisedStep(w);
    FlagStep(w, a, e, RaiseStart);
    var w' := Step(w, RaiseStart);
    StartedStep(w', esp);
    InterruptStep(w', a, e, Timer(esp));
    RunFirst(w', a, e, Timer(esp), []);
    RunFirst(w, a, e, RaiseStart, [Timer(esp)] + []);
    assert [RaiseStart] + ([Timer(esp)] + []) == [RaiseStart, Timer(esp)];
  }

  lemma {:induction false} FirstAdd(start: nat, size: nat)
    requires size > 2 * (STACK_SIZE + HEADER) + HEADER + 8
    ensures var w := Initial(2, start, size);
      |w.s.tasks| == 2 && w.s.current == -1 && w.s.count == 0 && WorldInv(w, start, start + size) && Allowed(w, Add)
    ensures WorldInv(Step(Initial(2, start, size), Add), start, start + size)
    ensures var s := Step(Initial(2, start, size), Add).s;
      && |s.tasks| == 2 && s.tasks[0].state == Runnable && s.tasks[1].state == Unused
      && s.count == 1 && s.active == 1 && s.current == -1 && !s.enabled && s.nextPid == 2
      && Malloc(s.heap, STACK_SIZE).ptr != 0
  {
    var w0 := Initial(2, start, size);
    InitialInv(2, start, size);
    AddStep(w0, start, start + size);
    hide WorldInv;
    FirstStack(start, size);
    assert FirstUnused(w0.s.tasks) == 0;
    var s := AddTask(w0.s);
    StackAvailable(s.heap, s.heap[1]);
    hide Malloc;
  }

  lemma {:induction false} SecondAdd(w: World, a: nat, e: nat)
    requires WorldInv(w, a, e)
    requires |w.s.tasks| == 2 && w.s.tasks[0].state == Runnable && w.s.tasks[1].state == Unused
    requires w.s.count == 1 && w.s.active == 1 && w.s.current == -1 && !w.s.enabled && w.s.nextPid == 2
    requires Malloc(w.s.heap, STACK_SIZE).ptr != 0
    ensures WorldInv(Step(w, Add), a, e) && Allowed(w, Add)
    ensures var s := Step(w, Add).s;
      && |s.tasks| == 2 && s.tasks[0].state == Runnable && s.tasks[1].state == Runnable
      && s.count == 2 && s.active == 2 && s.current == -1 && !s.enabled
  {
    AddStep(w, a, e);
    hide Malloc, WorldInv;
    assert FirstUnused(w.s.tasks) == 1;
  }

  lemma {:induction false} RaisedStep(w: World)
    requires -1 <= w.s.current < |w.s.tasks| && w.s.count <= |w.s.tasks| && w.s.active == 2 && !w.s.enabled
    ensures Allowed(w, RaiseStart)
    ensures Step(w, RaiseStart).s == w.s.(enabled := true, current := -1, need := true)
  {
  }

  lemma {:induction false} StartedStep(w: World, esp: nat)
    requires |w.s.tasks| == 2 && w.s.tasks[0].state == Runnable && w.s.tasks[1].state == Runnable
    requires w.s.count == 2 && w.s.active == 2 && w.s.current == -1 && w.s.enabled && w.s.need
    ensures Allowed(w, Timer(esp)) && Interrupting(w.s, Timer(esp))
    ensures var s := Step(w, Timer(esp)).s;
      s.enabled && s.current == 0 && IsRunnable(s.tasks, 1) && s.active == 2
  {
    assert IsRunnable(w.s.tasks, 0);
    NextIsNearest(w.s.tasks, -1);
  }
}
