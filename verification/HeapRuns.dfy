/** Whole runs of the kernel heap: any sequence of allocations and of frees of live pointers. */
module HeapRuns {
  import opened Arithmetic
  import opened HeapBlocks
  import opened Bytes
  import opened HeapMemory

  /** Requests up to this size do not wrap in `align8`. */
  const MAX_REQUEST: nat := 0xFFFF_FFF8

  datatype Op = Alloc(request: nat) | Release(ptr: nat)

  /** The block list and, for every live pointer, the size that was asked for. */
  datatype HeapState = HeapState(blocks: seq<Block>, live: map<nat, nat>)

  function Initial(start: nat, size: nat): HeapState
    requires HEADER < size
  {
    HeapState([Block(start, size - HEADER, true)], map[])
  }

  predicate Allowed(s: HeapState, op: Op) {
    match op
    case Alloc(request) => request < TWO32
    case Release(ptr) => ptr in s.live
  }

  function Step(s: HeapState, op: Op): HeapState {
    match op
    case Alloc(request) =>
      var r := Malloc(s.blocks, request);
      if r.ptr == 0 then s else HeapState(r.blocks, s.live[r.ptr := request])
    case Release(ptr) => HeapState(Free(s.blocks, ptr), s.live - {ptr})
  }

  predicate AllowedRun(s: HeapState, ops: seq<Op>)
    decreases |ops|
  {
    ops == [] || (Allowed(s, ops[0]) && AllowedRun(Step(s, ops[0]), ops[1..]))
  }

  function Run(s: HeapState, ops: seq<Op>): HeapState
    decreases |ops|
  {
    if ops == [] then s else Run(Step(s, ops[0]), ops[1..])
  }

  /** Live pointers are exactly the payloads of the allocated blocks, and a block holds its request
      exactly when the request did not wrap. */
  ghost predicate Tracks(live: map<nat, nat>, used: seq<Block>) {
    && (forall b :: b in used ==> b.Payload() in live && Holds(b, live[b.Payload()]))
    && (forall p :: p in live ==> exists b :: b in used && b.Payload() == p)
  }

  ghost predicate Inv(s: HeapState, a: nat, e: nat) {
    Proper(s.blocks, a, e) && Tracks(s.live, Used(s.blocks))
  }

  /** The block holds the request exactly when that did not wrap; it is then at least the least multiple of 8
      above the request, and at most 20 bytes more. */
  predicate Holds(b: Block, request: nat) {
    && (request <= b.size <==> request <= MAX_REQUEST)
    && (request <= MAX_REQUEST ==> UpToEight(request) <= b.size <= UpToEight(request) + 20)
  }

  lemma {:induction false} AddressesDiffer(x: seq<Block>, b: Block, y: seq<Block>, a: nat, e: nat)
    requires Tiles(x + [b] + y, a, e)
    ensures forall c :: c in Used(x) || c in Used(y) ==> c.addr != b.addr
  {
    var bs := x + [b] + y;
    TilesOrder(bs, a, e);
    forall c | c in Used(x) || c in Used(y)
      ensures c.addr != b.addr
    {
      if c in x {
        var i :| 0 <= i < |x| && x[i] == c;
        assert bs[i] == c && bs[|x|] == b;
      } else {
        var i :| 0 <= i < |y| && y[i] == c;
        assert bs[|x| + 1 + i] == c && bs[|x|] == b;
      }
    }
  }

  /** `kmalloc` keeps the invariant. */
  lemma {:induction false} AllocStep(s: HeapState, a: nat, e: nat, request: nat)
    requires Inv(s, a, e) && request < TWO32
    ensures Inv(Step(s, Alloc(request)), a, e)
  {
    hide Used, Tracks, Proper, Tiles;
    var bs, r := s.blocks, Malloc(s.blocks, request);
    if r.ptr != 0 {
      var size := Align8(request);
      var i := FirstFit(bs, size);
      var x, b, y := bs[..i], bs[i], bs[i + 1..];
      assert bs == x + [b] + y;
      AllocProper(x, b, y, a, e, size);
      TakenHolds(b, size, request);
      ProperTiles(bs, a, e);
      AddressesDiffer(x, b, y, a, e);
      AllocLive(s.live, Used(x), Taken(b, size)[0], Used(y), request);
    }
  }

  lemma {:induction false} ProperTiles(bs: seq<Block>, a: nat, e: nat)
    requires Proper(bs, a, e)
    ensures Tiles(bs, a, e)
  {
  }

  lemma {:induction false} TakenHolds(b: Block, size: nat, request: nat)
    requires 0 < request < TWO32 && size == Align8(request) && b.size >= size
    ensures Taken(b, size)[0].addr == b.addr && Holds(Taken(b, size)[0], request)
  {
    Align8Is(request);
  }

  lemma {:induction false} AllocLive(live: map<nat, nat>, ux: seq<Block>, m: Block, uy: seq<Block>, request: nat)
    requires Tracks(live, ux + uy) && Holds(m, request)
    requires forall b :: b in ux || b in uy ==> b.addr != m.addr
    ensures Tracks(live[m.Payload() := request], ux + [m] + uy)
  {
    hide Holds;
    var live', used, used' := live[m.Payload() := request], ux + uy, ux + [m] + uy;
    assert forall b :: b in used' <==> b in used || b == m;
    assert m in used';
    forall p | p in live'
      ensures exists b :: b in used' && b.Payload() == p
    {
      if p != m.Payload() {
        var b :| b in used && b.Payload() == p;
        assert b in used';
      }
    }
  }

  /** `kfree` of a live pointer keeps the invariant. */
  lemma {:induction false} ReleaseStep(s: HeapState, a: nat, e: nat, ptr: nat)
    requires Inv(s, a, e) && ptr in s.live
    ensures IndexOf(s.blocks, ptr) < |s.blocks|
    ensures Inv(Step(s, Release(ptr)), a, e)
  {
    hide Used, Holds, Proper, Tiles, Free;
    var bs := s.blocks;
    var b :| b in Used(bs) && b.Payload() == ptr;
    var i :| 0 <= i < |bs| && bs[i] == b;
    var x, y := bs[..i], bs[i + 1..];
    assert bs == x + [b] + y;
    FreeProper(x, b, y, a, e);
    ProperTiles(bs, a, e);
    Cut(x, b, y, a, e);
    AddressesDiffer(x, b, y, a, e);
    UsedOfAllocated(b);
    hide Tracks;
    ReleaseLive(s.live, Used(x), b, Used(y));
  }

  lemma {:induction false} ReleaseLive(live: map<nat, nat>, ux: seq<Block>, m: Block, uy: seq<Block>)
    requires Tracks(live, ux + [m] + uy)
    requires forall b :: b in ux || b in uy ==> b.addr != m.addr
    ensures Tracks(live - {m.Payload()}, ux + uy)
  {
    hide Holds;
    var live', used, used' := live - {m.Payload()}, ux + [m] + uy, ux + uy;
    assert forall b :: b in used' ==> b in used && b != m;
    forall p | p in live'
      ensures exists b :: b in used' && b.Payload() == p
    {
      var b :| b in used && b.Payload() == p;
      assert b in used';
    }
  }

  lemma {:induction false} RunKeepsInv(s: HeapState, ops: seq<Op>, a: nat, e: nat)
    requires Inv(s, a, e) && AllowedRun(s, ops)
    ensures Inv(Run(s, ops), a, e)
    decreases |ops|
  {
    if ops != [] {
      match ops[0] {
        case Alloc(request) => AllocStep(s, a, e, request);
        case Release(ptr) => ReleaseStep(s, a, e, ptr);
      }
      RunKeepsInv(Step(s, ops[0]), ops[1..], a, e);
    }
  }

  lemma {:induction false} InitialInv(start: nat, size: nat)
    requires HEADER < size
    ensures Inv(Initial(start, size), start, start + size)
  {
    var b := Block(start, size - HEADER, true);
    assert [b][1..] == [] && Tiles([b], start, start + size);
    UsedOfFree(b);
  }

  /** Size of the block behind a live pointer. */
  function SizeOf(s: HeapState, ptr: nat): nat
    requires IndexOf(s.blocks, ptr) < |s.blocks|
  {
    s.blocks[IndexOf(s.blocks, ptr)].size
  }

  /** The blocks tile the heap in address order without free neighbours; live payloads lie inside the
      heap, apart from each other and from every header; and a payload is as large as requested exactly
      when the request did not wrap. */
  ghost predicate Safe(s: HeapState, a: nat, e: nat) {
    && Proper(s.blocks, a, e)
    && (forall p :: p in s.live ==>
          && IndexOf(s.blocks, p) < |s.blocks|
          && a + HEADER <= p && p + SizeOf(s, p) <= e
          && (s.live[p] <= SizeOf(s, p) <==> s.live[p] <= MAX_REQUEST)
          && (s.live[p] <= MAX_REQUEST ==> UpToEight(s.live[p]) <= SizeOf(s, p) <= UpToEight(s.live[p]) + 20)
          && forall i :: 0 <= i < |s.blocks| ==> s.blocks[i].Payload() <= p || p + SizeOf(s, p) <= s.blocks[i].addr)
    && (forall p, q :: p in s.live && q in s.live && p < q ==> p + SizeOf(s, p) + HEADER <= q)
  }

  /** A block keeps clear of every header and of every later payload. */
  lemma {:induction false} BlockApart(bs: seq<Block>, a: nat, e: nat, k: nat, i: nat)
    requires Tiles(bs, a, e) && k < |bs| && i < |bs|
    ensures a <= bs[k].addr && bs[k].End() <= e
    ensures bs[i].Payload() <= bs[k].Payload() || bs[k].End() <= bs[i].addr
    ensures bs[k].Payload() < bs[i].Payload() ==> bs[k].End() + HEADER <= bs[i].Payload()
  {
    TilesBounds(bs, a, e);
    TilesOrder(bs, a, e);
    assert i < k ==> bs[i].End() <= bs[k].addr;
    assert k < i ==> bs[k].End() <= bs[i].addr;
  }

  lemma {:induction false} InvIsSafe(s: HeapState, a: nat, e: nat)
    requires Inv(s, a, e)
    ensures Safe(s, a, e)
  {
    hide Tiles, Used, Tracks, IndexOf;
    var bs := s.blocks;
    forall p | p in s.live
      ensures IndexOf(bs, p) < |bs| && bs[IndexOf(bs, p)].Payload() == p
      ensures a + HEADER <= p && p + SizeOf(s, p) <= e
      ensures s.live[p] <= SizeOf(s, p) <==> s.live[p] <= MAX_REQUEST
      ensures s.live[p] <= MAX_REQUEST ==> UpToEight(s.live[p]) <= SizeOf(s, p) <= UpToEight(s.live[p]) + 20
      ensures forall i :: 0 <= i < |bs| ==> bs[i].Payload() <= p || p + SizeOf(s, p) <= bs[i].addr
    {
      LiveBlock(s, a, e, p);
      BlockApart(bs, a, e, IndexOf(bs, p), IndexOf(bs, p));
      forall i | 0 <= i < |bs|
        ensures bs[i].Payload() <= p || p + SizeOf(s, p) <= bs[i].addr
      {
        BlockApart(bs, a, e, IndexOf(bs, p), i);
      }
    }
    forall p, q | p in s.live && q in s.live && p < q
      ensures p + SizeOf(s, p) + HEADER <= q
    {
      BlockApart(bs, a, e, IndexOf(bs, p), IndexOf(bs, q));
    }
  }

  /** Live blocks of the heap do not overlap and lie inside it. */
  lemma {:induction false} LiveApart(s: HeapState, a: nat, e: nat, p: nat, q: nat)
    requires Inv(s, a, e) && p in s.live && q in s.live && s.live[p] <= MAX_REQUEST && s.live[q] <= MAX_REQUEST
    ensures a <= p && p + s.live[p] <= e
    ensures p != q ==> p + s.live[p] <= q || q + s.live[q] <= p
  {
    InvIsSafe(s, a, e);
  }

  /** Every reachable state is safe. */
  lemma {:induction false} ReachableHeapIsSafe(start: nat, size: nat, ops: seq<Op>)
    requires HEADER < size && AllowedRun(Initial(start, size), ops)
    ensures Safe(Run(Initial(start, size), ops), start, start + size)
  {
    InitialInv(start, size);
    RunKeepsInv(Initial(start, size), ops, start, start + size);
    hide Safe, Inv, Run;
    InvIsSafe(Run(Initial(start, size), ops), start, start + size);
  }

  lemma {:induction false} SamePayload(bs: seq<Block>, a: nat, e: nat, i: nat, k: nat)
    requires Tiles(bs, a, e) && i < |bs| && k < |bs| && bs[i].Payload() == bs[k].Payload()
    ensures i == k
  {
    TilesOrder(bs, a, e);
    assert !(i < k) && !(k < i);
  }

  lemma {:induction false} LiveBlock(s: HeapState, a: nat, e: nat, p: nat)
    requires Inv(s, a, e) && p in s.live
    ensures var i := IndexOf(s.blocks, p);
      i < |s.blocks| && !s.blocks[i].free && Holds(s.blocks[i], s.live[p])
  {
    hide Used, Holds, Tiles;
    var b :| b in Used(s.blocks) && b.Payload() == p;
    var k :| 0 <= k < |s.blocks| && s.blocks[k] == b;
    hide Tracks;
    var i := IndexOf(s.blocks, p);
    SamePayload(s.blocks, a, e, i, k);
  }

  lemma {:induction false} TracksNothing(live: map<nat, nat>, used: seq<Block>)
    requires Tracks(live, used)
    ensures live == map[] <==> used == []
  {
    assert used != [] ==> used[0] in used;
    assert live != map[] ==> exists p :: p in live;
  }

  /** A pointer that `kmalloc` returns was not live before. */
  lemma {:induction false} FreshPointer(s: HeapState, a: nat, e: nat, request: nat)
    requires Inv(s, a, e) && Malloc(s.blocks, request).ptr != 0
    ensures Malloc(s.blocks, request).ptr !in s.live
  {
    var i, p := FirstFit(s.blocks, Align8(request)), Malloc(s.blocks, request).ptr;
    hide Tracks, Tiles;
    if p in s.live {
      LiveBlock(s, a, e, p);
      SamePayload(s.blocks, a, e, IndexOf(s.blocks, p), i);
      assert false;
    }
  }

  /** Heap restoration: a run that ends with nothing live, in whatever order the pointers were freed,
      gives back the one free block of `heap_init`. */
  lemma {:induction false} AllFreedRestores(start: nat, size: nat, ops: seq<Op>)
    requires HEADER < size && AllowedRun(Initial(start, size), ops)
    ensures var s := Run(Initial(start, size), ops);
      s.blocks == [Block(start, size - HEADER, true)] <==> s.live == map[]
  {
    var s, e, init := Run(Initial(start, size), ops), start + size, [Block(start, size - HEADER, true)];
    InitialInv(start, size);
    RunKeepsInv(Initial(start, size), ops, start, e);
    hide Run, AllowedRun, Used, Tracks;
    if s.live == map[] {
      TracksNothing(s.live, Used(s.blocks));
      UsedOfFree(init[0]);
      UsedDetermines(s.blocks, init, start, e);
    } else {
      UsedOfFree(init[0]);
      TracksNothing(s.live, Used(s.blocks));
    }
  }

  /** Accounting: used + free + headers never changes. */
  lemma {:induction false} AccountingConserved(start: nat, size: nat, ops: seq<Op>)
    requires HEADER < size && AllowedRun(Initial(start, size), ops)
    ensures var bs := Run(Initial(start, size), ops).blocks;
      UsedBytes(bs) + FreeBytes(bs) + HEADER * |bs| == size
  {
    hide Run, AllowedRun, Tiles, Used, Tracks, Initial, Proper;
    InitialInv(start, size);
    RunKeepsInv(Initial(start, size), ops, start, start + size);
    ProperTiles(Run(Initial(start, size), ops).blocks, start, start + size);
    BytesConserved(Run(Initial(start, size), ops).blocks, start, start + size);
  }

  /** A request of 0xFFFFFFF9 bytes from a fresh heap of 1 MiB succeeds, with a block of no bytes at all. */
  lemma {:induction false} WrappedRequestGetsNothing()
    ensures var s := Step(Initial(0x10_0000, 0x10_0000), Alloc(0xFFFF_FFF9));
      s.live == map[0x10_000C := 0xFFFF_FFF9] && IndexOf(s.blocks, 0x10_000C) == 0 && SizeOf(s, 0x10_000C) == 0
  {
    var bs := Initial(0x10_0000, 0x10_0000).blocks;
    assert FirstFit(bs, 0) == 0;
    assert bs[..0] == [] && bs[1..] == [];
  }

  // ---------------------------------------------------------------- memory

  /** Memory after an operation on the heap. */
  function StepMemory(mem: seq<byte>, s: HeapState, op: Op): (r: seq<byte>)
    ensures |r| == |mem|
  {
    match op
    case Alloc(request) => AllocMemory(mem, s.blocks, request)
    case Release(ptr) => FreeMemory(mem, s.blocks, ptr)
  }

  /** The headers in memory are those of the block list. */
  ghost predicate InMemory(mem: seq<byte>, s: HeapState, a: nat, e: nat) {
    0 < a && e < TWO32 && |mem| == TWO32 && Inv(s, a, e) && Linked(mem, s.blocks, 0)
  }

  /** No byte of a live payload belongs to a header. */
  lemma {:induction false} LiveClearOfHeaders(s: HeapState, a: nat, e: nat, p: nat, q: nat)
    requires Inv(s, a, e) && p in s.live && s.live[p] <= MAX_REQUEST && p <= q < p + s.live[p]
    ensures !InHeaders(s.blocks, q) && a <= q < e
  {
    InvIsSafe(s, a, e);
    hide Inv, IndexOf;
    assert s.live[p] <= SizeOf(s, p);
  }

  lemma {:induction false} HeadersInHeap(s: HeapState, a: nat, e: nat, q: nat)
    requires Inv(s, a, e) && InHeaders(s.blocks, q)
    ensures a <= q < e
  {
    HeadersInside(s.blocks, a, e, q);
  }

  /** `kmalloc` and `kfree` keep the headers in memory, and write only to headers: those of the list they
      leave behind and, for `kfree`, the one of the freed block. */
  lemma {:induction false} StepInMemory(mem: seq<byte>, s: HeapState, a: nat, e: nat, op: Op)
    requires InMemory(mem, s, a, e) && Allowed(s, op)
    ensures InMemory(StepMemory(mem, s, op), Step(s, op), a, e)
    ensures forall q :: 0 <= q < TWO32 && !InHeaders(s.blocks, q) && !InHeaders(Step(s, op).blocks, q) ==>
      StepMemory(mem, s, op)[q] == mem[q]
  {
    hide InHeaders, Inv;
    match op {
      case Alloc(request) =>
        AllocStep(s, a, e, request);
        AllocInMemory(mem, s, a, e, request);
      case Release(ptr) =>
        ReleaseStep(s, a, e, ptr);
        ReleaseInMemory(mem, s, a, e, ptr);
    }
  }

  lemma {:induction false} AllocInMemory(mem: seq<byte>, s: HeapState, a: nat, e: nat, request: nat)
    requires InMemory(mem, s, a, e) && Inv(Step(s, Alloc(request)), a, e)
    ensures var bs, m := Step(s, Alloc(request)).blocks, AllocMemory(mem, s.blocks, request);
      Linked(m, bs, 0) && SameButHeaders(mem, m, bs)
  {
    hide Malloc, Linked, Tiles, Used, Tracks, InHeaders, Stamped;
    var r := Malloc(s.blocks, request);
    if r.ptr != 0 {
      ProperTiles(r.blocks, a, e);
      StampedLinks(mem, r.blocks, 0, a, e);
    }
  }

  lemma {:induction false} ReleaseInMemory(mem: seq<byte>, s: HeapState, a: nat, e: nat, ptr: nat)
    requires InMemory(mem, s, a, e) && Inv(Step(s, Release(ptr)), a, e) && IndexOf(s.blocks, ptr) < |s.blocks|
    ensures var bs, m := Step(s, Release(ptr)).blocks, FreeMemory(mem, s.blocks, ptr);
      && Linked(m, bs, 0)
      && forall q :: 0 <= q < TWO32 && !InHeaders(s.blocks, q) && !InHeaders(bs, q) ==> m[q] == mem[q]
  {
    hide Free, Linked, Tiles, Used, Tracks, Stamped;
    var bs, marked := Free(s.blocks, ptr), MarkedFree(mem, ptr);
    ProperTiles(bs, a, e);
    StampedLinks(marked, bs, 0, a, e);
    forall q | 0 <= q < TWO32 && !InHeaders(s.blocks, q)
      ensures marked[q] == mem[q]
    {
      MarkInHeader(mem, s.blocks, ptr, q);
    }
  }

  lemma {:induction false} MarkInHeader(mem: seq<byte>, bs: seq<Block>, ptr: nat, q: nat)
    requires IndexOf(bs, ptr) < |bs| && q < |mem| && !InHeaders(bs, q)
    ensures MarkedFree(mem, ptr)[q] == mem[q]
  {
    var i := IndexOf(bs, ptr);
    assert !(bs[i].addr <= q < bs[i].Payload());
  }

  /** Header writes miss every payload that is live before and after. */
  lemma {:induction false} LiveBytesKept(mem: seq<byte>, s: HeapState, a: nat, e: nat, op: Op, p: nat, q: nat)
    requires InMemory(mem, s, a, e) && Allowed(s, op) && p in s.live && s.live[p] <= MAX_REQUEST
    requires p in Step(s, op).live && Step(s, op).live[p] == s.live[p] && p <= q < p + s.live[p]
    ensures a <= q < e && StepMemory(mem, s, op)[q] == mem[q]
  {
    StepInMemory(mem, s, a, e, op);
    hide Inv, InHeaders, StepMemory, Step, Linked;
    LiveClearOfHeaders(s, a, e, p, q);
    LiveClearOfHeaders(Step(s, op), a, e, p, q);
  }

  /** And so do they miss everything outside the heap. */
  lemma {:induction false} OutsideBytesKept(mem: seq<byte>, s: HeapState, a: nat, e: nat, op: Op, q: nat)
    requires InMemory(mem, s, a, e) && Allowed(s, op) && q < TWO32 && !(a <= q < e)
    ensures StepMemory(mem, s, op)[q] == mem[q]
  {
    StepInMemory(mem, s, a, e, op);
    hide Inv, StepMemory, Step, Linked, InHeaders;
    if InHeaders(s.blocks, q) {
      HeadersInHeap(s, a, e, q);
    } else if InHeaders(Step(s, op).blocks, q) {
      HeadersInHeap(Step(s, op), a, e, q);
    }
  }

  /** Bytes written clear of every header leave the heap as it is. */
  lemma {:induction false} PayloadWriteKeepsHeap(mem: seq<byte>, mem': seq<byte>, s: HeapState, a: nat, e: nat)
    requires InMemory(mem, s, a, e) && |mem'| == |mem|
    requires forall q :: 0 <= q < |mem| && InHeaders(s.blocks, q) ==> mem'[q] == mem[q]
    ensures InMemory(mem', s, a, e)
  {
    LinkedFrame(mem, mem', s.blocks, 0);
  }

  /** Memory along a run. */
  function RunMemory(mem: seq<byte>, s: HeapState, ops: seq<Op>): (r: seq<byte>)
    ensures |r| == |mem|
    decreases |ops|
  {
    if ops == [] then mem else RunMemory(StepMemory(mem, s, ops[0]), Step(s, ops[0]), ops[1..])
  }

  /** The payload is live, with the same size, all through the run. */
  predicate StaysLive(s: HeapState, ops: seq<Op>, p: nat)
    decreases |ops|
  {
    p in s.live && (ops == [] || (ops[0] != Release(p) && StaysLive(Step(s, ops[0]), ops[1..], p)))
  }

  lemma {:induction false} LiveSizeKept(s: HeapState, a: nat, e: nat, op: Op, p: nat)
    requires Inv(s, a, e) && p in s.live && p in Step(s, op).live && op != Release(p)
    ensures Step(s, op).live[p] == s.live[p]
  {
    hide Malloc, Inv;
    if op.Alloc? && Malloc(s.blocks, op.request).ptr == p != 0 {
      FreshPointer(s, a, e, op.request);
    }
  }

  /** In-band safety over runs: however much is allocated, split, freed and coalesced around it, a live
      payload keeps its bytes, and the list stays readable from memory. */
  lemma {:induction false} LivePayloadSurvives(mem: seq<byte>, s: HeapState, a: nat, e: nat, ops: seq<Op>, p: nat, q: nat)
    requires InMemory(mem, s, a, e) && AllowedRun(s, ops) && StaysLive(s, ops, p)
    requires s.live[p] <= MAX_REQUEST && p <= q < p + s.live[p]
    ensures InMemory(RunMemory(mem, s, ops), Run(s, ops), a, e)
    ensures q < TWO32 && RunMemory(mem, s, ops)[q] == mem[q]
    decreases |ops|
  {
    LiveClearOfHeaders(s, a, e, p, q);
    if ops != [] {
      var op := ops[0];
      StepInMemory(mem, s, a, e, op);
      assert StaysLive(Step(s, op), ops[1..], p);
      LiveSizeKept(s, a, e, op, p);
      LiveBytesKept(mem, s, a, e, op, p, q);
      hide InMemory, StepMemory, Step, InHeaders, Allowed, Inv;
      LivePayloadSurvives(StepMemory(mem, s, op), Step(s, op), a, e, ops[1..], p, q);
    }
  }
}
