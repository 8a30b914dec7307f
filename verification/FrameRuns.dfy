/** Whole runs of the frame allocator: any sequence of single and contiguous allocations and of frees. */
module FrameRuns {
  import opened Frames

  /** `frame_alloc` is `Alloc(1)`, `frame_alloc_contiguous(n)` is `Alloc(n)`, and `frame_free` of any address
      in a frame is `Free` of that frame. */
  datatype Op = Alloc(n: nat) | Free(frame: nat)

  /** Start of the lowest run of `n` free frames at or after `q`, or -1. */
  ghost function LowestFrom(m: seq<bool>, total: nat, n: nat, q: nat): (r: int)
    requires total <= |m| && forall p :: 0 <= p < q && p + n <= total ==> !RunFree(m, p, n)
    ensures r == -1 ==> NoRun(m, total, n)
    ensures r != -1 ==> r >= 0 && LowestRun(m, total, n, r)
    decreases total - q
  {
    if q + n > total then -1
    else if RunFree(m, q, n) then q
    else LowestFrom(m, total, n, q + 1)
  }

  ghost function Found(m: seq<bool>, total: nat, n: nat): int
    requires total <= |m|
  {
    LowestFrom(m, total, n, 0)
  }

  ghost function Step(m: seq<bool>, total: nat, op: Op): (m': seq<bool>)
    requires total <= |m|
    ensures |m'| == |m|
  {
    match op
    case Alloc(n) => if n == 0 || Found(m, total, n) == -1 then m else MarkRun(m, Found(m, total, n), n)
    case Free(frame) => if frame < total then m[frame := false] else m
  }

  predicate InRun(f: nat, start: int, n: nat) {
    start <= f < start + n
  }

  /** The frames that this operation hands out. */
  ghost function Handed(m: seq<bool>, total: nat, op: Op): set<nat>
    requires total <= |m|
  {
    match op
    case Alloc(n) =>
      if n == 0 || Found(m, total, n) == -1 then {}
      else set f | 0 <= f < |m| && InRun(f, Found(m, total, n), n)
    case Free(_) => {}
  }

  /** The methods of the allocator take exactly these steps. */
  lemma {:induction false} AllocatesIsStep(m: seq<bool>, m': seq<bool>, total: nat, n: nat, addr: nat)
    requires total <= |m| && 0 < n && Allocates(m, m', total, n, addr)
    ensures m' == Step(m, total, Alloc(n))
    ensures Found(m, total, n) != -1 ==> addr == Found(m, total, n) * FRAME_SIZE
  {
    var s := Found(m, total, n);
    hide MarkRun, RunFree, Found;
    if s == -1 {
      assert Allocates(m, m, total, n, 0);
      AllocationUnique(m, m', m, total, n, addr, 0);
    } else {
      assert Allocates(m, MarkRun(m, s, n), total, n, s * FRAME_SIZE);
      AllocationUnique(m, m', MarkRun(m, s, n), total, n, addr, s * FRAME_SIZE);
    }
  }

  ghost function Run(m: seq<bool>, total: nat, ops: seq<Op>): (m': seq<bool>)
    requires total <= |m|
    ensures |m'| == |m|
    decreases |ops|
  {
    if ops == [] then m else Run(Step(m, total, ops[0]), total, ops[1..])
  }

  /** All frames handed out along a run. */
  ghost function HandedAlong(m: seq<bool>, total: nat, ops: seq<Op>): set<nat>
    requires total <= |m|
    decreases |ops|
  {
    if ops == [] then {} else Handed(m, total, ops[0]) + HandedAlong(Step(m, total, ops[0]), total, ops[1..])
  }

  /** The frames that are handed out are exactly those that were free and are in use afterwards. */
  lemma {:induction false} HandedIs(m: seq<bool>, total: nat, op: Op, f: nat)
    requires total <= |m|
    ensures f in Handed(m, total, op) <==> f < |m| && !m[f] && Step(m, total, op)[f]
  {
    if op.Alloc? && op.n > 0 && Found(m, total, op.n) != -1 {
      var s := Found(m, total, op.n);
      assert LowestRun(m, total, op.n, s);
      assert RunFree(m, s, op.n);
      hide Found;
      assert InRun(f, s, op.n) <==> s <= f < s + op.n;
    }
  }

  /** A frame that is handed out lies below the last one, was free, and is in use afterwards. */
  lemma {:induction false} HandedWasFree(m: seq<bool>, total: nat, op: Op, f: nat)
    requires total <= |m| && f in Handed(m, total, op)
    ensures f < total && !m[f] && Step(m, total, op)[f]
  {
    var s := Found(m, total, op.n);
    assert LowestRun(m, total, op.n, s);
    assert !m[f];
  }

  /** A frame in use stays in use until it is freed. */
  lemma {:induction false} StaysUsed(m: seq<bool>, total: nat, op: Op, f: nat)
    requires total <= |m| && f < |m| && m[f] && op != Free(f)
    ensures Step(m, total, op)[f] && f !in Handed(m, total, op)
  {
    if f in Handed(m, total, op) {
      HandedWasFree(m, total, op, f);
    }
  }

  /** A frame in use, reserved or handed out, is not handed out by any run that does not free it. */
  lemma {:induction false} UsedNeverHanded(m: seq<bool>, total: nat, ops: seq<Op>, f: nat)
    requires total <= |m| && f < |m| && m[f] && Free(f) !in ops
    ensures f !in HandedAlong(m, total, ops) && Run(m, total, ops)[f]
    decreases |ops|
  {
    if ops != [] {
      assert ops[0] in ops && forall op :: op in ops[1..] ==> op in ops;
      StaysUsed(m, total, ops[0], f);
      hide Step, Handed;
      UsedNeverHanded(Step(m, total, ops[0]), total, ops[1..], f);
    }
  }

  /** While nobody frees its frames, no run hands out a frame with a byte of the kernel or of the bitmap. */
  lemma {:induction false} KernelNeverHanded(m: seq<bool>, total: nat, ops: seq<Op>, kernelEnd: nat, f: nat, x: nat)
    requires total <= |m| && KernelUsed(m, kernelEnd, total)
    requires f < total && KernelByte(kernelEnd, f, x) && Free(x / 4096) !in ops
    ensures x / 4096 !in HandedAlong(m, total, ops)
  {
    hide KernelByte;
    if x / 4096 < total {
      UsedNeverHanded(m, total, ops, x / 4096);
    } else {
      HandedBelow(m, total, ops, x / 4096);
    }
  }

  lemma {:induction false} HandedBelow(m: seq<bool>, total: nat, ops: seq<Op>, f: nat)
    requires total <= |m| && total <= f
    ensures f !in HandedAlong(m, total, ops)
    decreases |ops|
  {
    if ops != [] {
      if f in Handed(m, total, ops[0]) {
        HandedWasFree(m, total, ops[0], f);
      }
      hide Step, Handed;
      HandedBelow(Step(m, total, ops[0]), total, ops[1..], f);
    }
  }

  /** No frame is handed out twice without a free in between. */
  lemma {:induction false} NeverTwice(m: seq<bool>, total: nat, before: seq<Op>, op: Op, after: seq<Op>, f: nat)
    requires total <= |m| && f in Handed(Run(m, total, before), total, op) && Free(f) !in after
    ensures f < total && f !in HandedAlong(Step(Run(m, total, before), total, op), total, after)
  {
    var mid := Run(m, total, before);
    HandedWasFree(mid, total, op, f);
    hide Step, Handed, Run;
    UsedNeverHanded(Step(mid, total, op), total, after, f);
  }

  /** The padding past the last frame stays in use whatever happens. */
  lemma {:induction false} PaddingStays(m: seq<bool>, total: nat, ops: seq<Op>, f: nat)
    requires total <= f < |m| && m[f]
    ensures f !in HandedAlong(m, total, ops) && Run(m, total, ops)[f]
    decreases |ops|
  {
    if ops != [] {
      PaddingStep(m, total, ops[0], f);
      hide Step, Handed;
      PaddingStays(Step(m, total, ops[0]), total, ops[1..], f);
    }
  }

  lemma {:induction false} PaddingStep(m: seq<bool>, total: nat, op: Op, f: nat)
    requires total <= f < |m| && m[f]
    ensures f !in Handed(m, total, op) && Step(m, total, op)[f]
  {
    if f in Handed(m, total, op) {
      HandedWasFree(m, total, op, f);
    }
  }

  /** Frames handed out in a run, less those freed. */
  ghost function Balance(m: seq<bool>, total: nat, ops: seq<Op>): int
    requires total <= |m|
    decreases |ops|
  {
    if ops == [] then 0
    else
      (match ops[0]
       case Alloc(n) => if n == 0 || Found(m, total, n) == -1 then 0 else n
       case Free(frame) => if frame < total && m[frame] then -1 else 0)
      + Balance(Step(m, total, ops[0]), total, ops[1..])
  }

  /** The number of used frames, which `used_frames` equals, goes up by what is handed out and down by what
      is freed. */
  lemma {:induction false} UsedConserved(m: seq<bool>, total: nat, ops: seq<Op>)
    requires total <= |m|
    ensures Count(Run(m, total, ops), total) == Count(m, total) + Balance(m, total, ops)
    decreases |ops|
  {
    if ops != [] {
      match ops[0] {
        case Alloc(n) =>
          if n > 0 && Found(m, total, n) != -1 {
            CountMarked(m, Found(m, total, n), n, total);
          }
        case Free(frame) =>
          if frame < total {
            CountUpdate(m, frame, false, total);
          }
      }
      hide Count, MarkRun, Found;
      UsedConserved(Step(m, total, ops[0]), total, ops[1..]);
    }
  }

  lemma {:induction false} CountMarked(m: seq<bool>, s: nat, n: nat, total: nat)
    requires s + n <= total <= |m| && RunFree(m, s, n)
    ensures Count(MarkRun(m, s, n), total) == Count(m, total) + n
    decreases n
  {
    if n == 0 {
      assert MarkRun(m, s, 0) == m;
    } else {
      var less := MarkRun(m, s, n - 1);
      CountMarked(m, s, n - 1, total);
      assert less[s + n - 1 := true] == MarkRun(m, s, n) && !less[s + n - 1];
      CountUpdate(less, s + n - 1, true, total);
    }
  }
}
