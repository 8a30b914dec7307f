/** Where the blocks of the heap lie and how large they are, over whole runs. */
module HeapLayout {
  import opened Arithmetic
  import opened Bytes
  import opened HeapBlocks
  import opened HeapMemory
  import opened HeapRuns

  // ---------------------------------------------------------------- one allocation

  /** The first free block with room for `n` bytes. */
  predicate FirstWithRoom(bs: seq<Block>, n: nat, i: nat) {
    && i < |bs| && bs[i].free && bs[i].size >= n
    && forall j :: 0 <= j < i ==> !(bs[j].free && bs[j].size >= n)
  }

  /** `kmalloc` of a request that does not wrap: the size is rounded up to a multiple of 8, the first free block
      with room is taken, and it is cut exactly when more than 20 bytes would be left over. */
  lemma {:induction false} MallocEffect(bs: seq<Block>, request: nat, i: nat)
    requires 0 < request <= MAX_REQUEST && FirstWithRoom(bs, UpToEight(request), i)
    ensures var n, b, r := UpToEight(request), bs[i], Malloc(bs, request);
      && r.ptr == b.addr + 12
      && (b.size > n + 20 ==>
            r.blocks == bs[..i] + [Block(b.addr, n, false), Block(b.addr + 12 + n, b.size - n - 12, true)] + bs[i + 1..])
      && (b.size <= n + 20 ==> r.blocks == bs[i := Block(b.addr, b.size, false)])
  {
    Align8Is(request);
    FirstFitIs(bs, UpToEight(request), i);
    hide Align8, FirstFit, UpToEight;
    assert bs[i := Block(bs[i].addr, bs[i].size, false)] == bs[..i] + [Block(bs[i].addr, bs[i].size, false)] + bs[i + 1..];
  }

  /** It fails exactly when no free block has room. */
  lemma {:induction false} MallocNeedsRoom(bs: seq<Block>, request: nat)
    requires 0 < request <= MAX_REQUEST
    ensures Malloc(bs, request).ptr == 0 <==> forall i :: 0 <= i < |bs| ==> !(bs[i].free && bs[i].size >= UpToEight(request))
  {
    Align8Is(request);
    hide Align8, FirstFit, UpToEight;
    var i := FirstFit(bs, UpToEight(request));
    if i == |bs| {
    } else {
      assert bs[i].free && bs[i].size >= UpToEight(request);
    }
  }

  // ---------------------------------------------------------------- headers and counters

  /** A header in memory: size, address of the next header or 0, and 1 for a free block, four bytes each with the
      low one first. */
  lemma {:induction false} HeaderBytes(mem: seq<byte>, bs: seq<Block>, i: nat)
    requires Linked(mem, bs, 0) && i < |bs|
    ensures var a, next := bs[i].addr, if i + 1 < |bs| then bs[i + 1].addr else 0;
      && a + 12 <= |mem| && bs[i].size < TWO32 && next < TWO32
      && mem[a..a + 4] == Four(bs[i].size) && mem[a + 4..a + 8] == Four(next)
      && mem[a + 8..a + 12] == Four(if bs[i].free then 1 else 0)
  {
    hide U32, Four, ReadHeader;
    if i > 0 {
      HeaderBytes(mem, bs[1..], i - 1);
    } else {
      HeaderWords(mem, bs[0].addr);
    }
  }

  lemma {:induction false} HeaderWords(mem: seq<byte>, a: nat)
    requires a + 12 <= |mem|
    ensures var h := ReadHeader(mem, a);
      && h.size < TWO32 && h.next < TWO32 && h.free < TWO32
      && mem[a..a + 4] == Four(h.size) && mem[a + 4..a + 8] == Four(h.next) && mem[a + 8..a + 12] == Four(h.free)
  {
    FourOf(mem, a);
    FourOf(mem, a + 4);
    FourOf(mem, a + 8);
  }

  /** The counters of `heap_stats`, block by block: nothing for no blocks, and each block counts once, its size
      for the allocated or for the free bytes. */
  lemma {:induction false} StatsByBlock(x: seq<Block>, b: Block, y: seq<Block>)
    ensures UsedBytes([]) == FreeBytes([]) == FreeCount([]) == 0
    ensures UsedBytes(x + [b] + y) == UsedBytes(x) + UsedBytes(y) + if b.free then 0 else b.size
    ensures FreeBytes(x + [b] + y) == FreeBytes(x) + FreeBytes(y) + if b.free then b.size else 0
    ensures FreeCount(x + [b] + y) == FreeCount(x) + FreeCount(y) + if b.free then 1 else 0
  {
    if x == [] {
      assert [] + [b] + y == [b] + y && ([b] + y)[1..] == y;
    } else {
      StatsByBlock(x[1..], b, y);
      assert (x + [b] + y)[1..] == x[1..] + [b] + y;
    }
  }

  // ---------------------------------------------------------------- alignment over runs

  /** `x` is a multiple of 4 away from `a`. */
  predicate InStep(a: nat, x: nat) {
    (x - a) % 4 == 0
  }

  lemma {:induction false} StepOn(a: nat, x: nat, n: nat)
    requires InStep(a, x) && n % 4 == 0
    ensures InStep(a, x + n)
  {
  }

  /** Every block starts at a multiple of 4 behind `a`. */
  predicate Aligned(bs: seq<Block>, a: nat) {
    forall i :: 0 <= i < |bs| ==> InStep(a, bs[i].addr)
  }

  lemma {:induction false} CoalesceAligned(bs: seq<Block>, a: nat)
    requires Aligned(bs, a)
    ensures Aligned(Coalesce(bs), a)
    decreases |bs|
  {
    hide InStep;
    if |bs| >= 2 {
      assert forall i :: 1 <= i < |bs| ==> bs[1..][i - 1] == bs[i];
      if bs[0].free && bs[1].free && bs[0].End() == bs[1].addr {
        CoalesceAligned([Block(bs[0].addr, bs[0].size + HEADER + bs[1].size, true)] + bs[2..], a);
      } else {
        CoalesceAligned(bs[1..], a);
      }
    }
  }

  lemma {:induction false} AllocAligned(bs: seq<Block>, a: nat, request: nat)
    requires Aligned(bs, a)
    ensures Aligned(Malloc(bs, request).blocks, a)
  {
    var size := Align8(request);
    SizeInStep(size / 8);
    var i := FirstFit(bs, size);
    hide Align8, FirstFit;
    if request != 0 && i < |bs| {
      var r := Malloc(bs, request).blocks;
      StepOn(a, bs[i].addr, HEADER + size);
      hide InStep;
      assert forall k :: 0 <= k < i ==> r[k] == bs[k];
      if Splits(bs[i], size) {
        assert forall k :: i + 2 <= k < |r| ==> r[k] == bs[k - 1];
      } else {
        assert forall k :: i < k < |r| ==> r[k] == bs[k];
      }
    }
  }

  lemma {:induction false} SizeInStep(n: nat)
    ensures (HEADER + n * 8) % 4 == 0
  {
  }

  lemma {:induction false} FreeAligned(bs: seq<Block>, a: nat, ptr: nat)
    requires Aligned(bs, a)
    ensures Aligned(Free(bs, ptr), a)
  {
    var i := IndexOf(bs, ptr);
    if i < |bs| {
      CoalesceAligned(bs[i := bs[i].(free := true)], a);
    }
  }

  lemma {:induction false} RunAligned(s: HeapState, ops: seq<Op>, a: nat)
    requires Aligned(s.blocks, a)
    ensures Aligned(Run(s, ops).blocks, a)
    decreases |ops|
  {
    if ops != [] {
      match ops[0] {
        case Alloc(request) => AllocAligned(s.blocks, a, request);
        case Release(ptr) => FreeAligned(s.blocks, a, ptr);
      }
      hide Step, Aligned;
      RunAligned(Step(s, ops[0]), ops[1..], a);
    }
  }

  /** After any run, every header and every live pointer is aligned to 4 bytes as the start of the heap is. */
  lemma {:induction false} PointersAligned(start: nat, size: nat, ops: seq<Op>)
    requires HEADER < size && AllowedRun(Initial(start, size), ops)
    ensures var s := Run(Initial(start, size), ops);
      && (forall i :: 0 <= i < |s.blocks| ==> (s.blocks[i].addr - start) % 4 == 0)
      && (forall p :: p in s.live ==> (p - start) % 4 == 0)
  {
    hide Run, AllowedRun, Proper, SizeOf;
    var s := Run(Initial(start, size), ops);
    RunAligned(Initial(start, size), ops, start);
    ReachableHeapIsSafe(start, size, ops);
    LiveAligned(s, start, start + size);
  }

  lemma {:induction false} LivePayload(s: HeapState, a: nat, e: nat, p: nat)
    requires Safe(s, a, e) && Aligned(s.blocks, a) && p in s.live
    ensures p >= 12 && InStep(a, p - 12)
  {
    hide InStep;
    assert s.blocks[IndexOf(s.blocks, p)].addr + 12 == p;
  }

  lemma {:induction false} LiveAligned(s: HeapState, a: nat, e: nat)
    requires Safe(s, a, e) && Aligned(s.blocks, a)
    ensures forall p :: p in s.live ==> InStep(a, p)
  {
    forall p | p in s.live
      ensures InStep(a, p)
    {
      LivePayload(s, a, e, p);
      hide Safe, InStep;
      StepOn(a, p - 12, 12);
    }
  }
}
