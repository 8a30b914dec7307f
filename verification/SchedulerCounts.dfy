/** The counters of the scheduler over whole runs, and the calls that raise a flag and then interrupt. */
module SchedulerCounts {
  import opened HeapBlocks
  import opened Scheduling
  import opened SchedulerRuns
  import HeapRuns

  // ---------------------------------------------------------------- calls made of two steps

  /** `task_yield` is raising the flag and then the timer's interrupt, and without a second slot or with
      scheduling off it is nothing. */
  lemma {:induction false} YieldIs(w: World, a: nat, e: nat, esp: nat)
    requires WorldInv(w, a, e)
    ensures WorldInv(Step(w, Want), a, e)
    ensures w.s.enabled && w.s.count >= 2 ==>
      Yield(w.s, esp) == Resumed(Step(w, Want).s, Timer(esp)) && Yield(w.s, esp).s == Step(Step(w, Want), Timer(esp)).s
    ensures !(w.s.enabled && w.s.count >= 2) ==> Yield(w.s, esp) == Resume(w.s, esp) && Step(w, Want) == w
  {
    FlagStep(w, a, e, Want);
    hide Switch, CountRunnable, StacksOwned, SavedIsSeen, Reaping, HeapRuns.Inv, PidsDistinct;
  }

  /** `scheduler_start` is raising the flags and then the timer's interrupt, and without a task it is nothing. */
  lemma {:induction false} StartIs(w: World, a: nat, e: nat, esp: nat)
    requires WorldInv(w, a, e) && !w.s.enabled
    ensures WorldInv(Step(w, RaiseStart), a, e)
    ensures w.s.active > 0 ==>
      && Start(w.s, esp) == Resumed(Step(w, RaiseStart).s, Timer(esp))
      && Start(w.s, esp).s == Step(Step(w, RaiseStart), Timer(esp)).s
    ensures w.s.active == 0 ==> Start(w.s, esp) == Resume(w.s, esp) && Step(w, RaiseStart) == w
  {
    FlagStep(w, a, e, RaiseStart);
    hide Switch, CountRunnable, StacksOwned, SavedIsSeen, Reaping, HeapRuns.Inv, PidsDistinct;
  }

  // ---------------------------------------------------------------- a new task

  /** The first unused slot gets a runnable task with the next pid and a stack of 4096 bytes, at whose top 56
      bytes are taken; without a slot or a stack nothing happens. */
  lemma {:induction false} AddedTask(s: Sched, i: nat)
    requires i <= |s.tasks| && (i < |s.tasks| ==> s.tasks[i].state == Unused)
    requires forall j :: 0 <= j < i ==> s.tasks[j].state != Unused
    ensures var p, t := Malloc(s.heap, 4096).ptr, AddTask(s);
      if i < |s.tasks| && p != 0 then
        && AddedPid(s) == s.nextPid && t.tasks == s.tasks[i := Task(p + 4096 - 56, p, s.nextPid, 0, Runnable)]
        && t.heap == Malloc(s.heap, 4096).blocks
      else
        AddedPid(s) == -1 && t == s
  {
    hide Malloc;
    var k := FirstUnused(s.tasks);
    assert !(k < i) && !(i < k);
  }

  // ---------------------------------------------------------------- slots and pids

  /** `task_count` is the number of slots that were ever used, and they are the first ones. */
  ghost predicate CountOk(s: Sched) {
    s.count <= |s.tasks| && forall i :: 0 <= i < |s.tasks| ==> (i < s.count <==> s.tasks[i].pid != 0)
  }

  /** The event adds a task. */
  predicate Adds(w: World, ev: Event) {
    ev.Add? && HasRoom(w.s)
  }

  lemma {:induction false} CountStep(w: World, a: nat, e: nat, ev: Event)
    requires WorldInv(w, a, e) && Allowed(w, ev) && CountOk(w.s)
    ensures CountOk(Step(w, ev).s)
    ensures Step(w, ev).s.nextPid == w.s.nextPid + if Adds(w, ev) then 1 else 0
    ensures Adds(w, ev) ==> AddedPid(w.s) == w.s.nextPid
  {
    hide StacksOwned, SavedIsSeen, Reaping, PidsDistinct, HeapRuns.Inv, CountRunnable, Malloc, Free, HeapRuns.Step, FirstUnused;
    match ev {
      case Add =>
        if HasRoom(w.s) {
          AddCounts(w.s);
        }
      case WaitCall(pid) =>
        if ZombieSlot(w.s, pid, 0) < w.s.count {
          WaitKeepsInv(w.s, pid);
          ClearedCounts(w.s, Wait(w.s, pid), ZombieSlot(w.s, pid, 0));
        }
      case Other(op) =>
      case RaiseStart => FlagStep(w, a, e, ev);
      case Want => FlagStep(w, a, e, ev);
      case _ =>
        if Interrupting(w.s, ev) {
          InterruptCounts(w.s, ev);
        } else {
          IdleStep(w, a, e, ev);
        }
    }
  }

  lemma {:induction false} AddCounts(s: Sched)
    requires Inv(s) && HasRoom(s) && CountOk(s)
    ensures CountOk(AddTask(s)) && AddTask(s).nextPid == s.nextPid + 1
  {
    var i := FirstUnused(s.tasks);
    AddKeepsInv(s);
    assert s.count < |s.tasks| ==> s.tasks[s.count].state == Unused;
    hide Malloc, FirstUnused, CountRunnable, PidsDistinct, Inv;
    assert i <= s.count;
  }

  lemma {:induction false} ClearedCounts(s: Sched, t: Sched, i: nat)
    requires Cleared(s, t, i) && CountOk(s) && t.count == s.count
    ensures CountOk(t)
  {
  }

  lemma {:induction false} InterruptCounts(s: Sched, ev: Event)
    requires Inv(s) && Interrupting(s, ev) && CountOk(s)
    ensures CountOk(Resumed(s, ev).s) && Resumed(s, ev).s.nextPid == s.nextPid
  {
    InterruptEffect(s, ev);
    PreparedEnters(s, ev);
    SwitchEffect(Prepared(s, ev), ev.esp);
    hide Resumed, Switch, Prepared, SaveEsp, NextTask, CountRunnable, PidsDistinct, Entering, Inv;
    var t := Resumed(s, ev).s;
    assert t.count == s.count;
    forall i | 0 <= i < |s.tasks|
      ensures t.tasks[i].pid == s.tasks[i].pid
    {
    }
  }

  /** How many tasks a run adds. */
  ghost function Added(w: World, a: nat, e: nat, es: seq<Event>): nat
    requires WorldInv(w, a, e) && AllowedRun(w, a, e, es)
    decreases |es|
  {
    if es == [] then 0
    else
      StepKeepsInv(w, a, e, es[0]);
      (if Adds(w, es[0]) then 1 else 0) + Added(Step(w, es[0]), a, e, es[1..])
  }

  lemma {:induction false} CountsInRun(w: World, a: nat, e: nat, es: seq<Event>)
    requires WorldInv(w, a, e) && AllowedRun(w, a, e, es) && CountOk(w.s)
    ensures CountOk(Run(w, a, e, es).s) && Run(w, a, e, es).s.nextPid == w.s.nextPid + Added(w, a, e, es)
    decreases |es|
  {
    if es != [] {
      StepKeepsInv(w, a, e, es[0]);
      CountStep(w, a, e, es[0]);
      hide Step, WorldInv, CountOk, Adds, Allowed;
      CountsInRun(Step(w, es[0]), a, e, es[1..]);
    }
  }

  /** After any run from `scheduler_init`, `task_count` is the number of slots ever used, which are the first
      ones, and the pids given out so far are 1, 2, 3 and so on, one for each task added. */
  lemma {:induction false} CountsAreExact(n: nat, start: nat, size: nat, es: seq<Event>)
    requires 0 < n && HEADER < size && PossibleRun(n, start, size, es)
    ensures CountOk(After(n, start, size, es).s)
    ensures WorldInv(Initial(n, start, size), start, start + size)
    ensures After(n, start, size, es).s.nextPid == 1 + Added(Initial(n, start, size), start, start + size, es)
  {
    InitialInv(n, start, size);
    hide WorldInv;
    CountsInRun(Initial(n, start, size), start, start + size, es);
  }
}
