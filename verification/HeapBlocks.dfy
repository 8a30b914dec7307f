/** The kernel heap as a list of blocks in address order: first-fit allocation with splitting, freeing
    with coalescing, and what holds of every list these can build. */
module HeapBlocks {
  import opened Arithmetic
  import opened Sequences

  const HEADER: nat := 12

  datatype Block = Block(addr: nat, size: nat, free: bool) {
    /** Address behind the block. */
    function End(): nat {
      addr + HEADER + size
    }

    /** The pointer handed out for the block. */
    function Payload(): nat {
      addr + HEADER
    }
  }

  /** `align8` on 32 bits: requests above 0xFFFFFFF8 wrap to 0. */
  function Align8(size: nat): (r: nat)
    ensures size <= 0xFFFF_FFF8 ==> size <= r < size + 8 && r <= 0xFFFF_FFF8
    ensures 0xFFFF_FFF8 < size < TWO32 ==> r == 0
  {
    (size + 7) % TWO32 / 8 * 8
  }

  /** The least multiple of 8 that is not below `n`. */
  function UpToEight(n: nat): (r: nat)
    ensures r % 8 == 0 && n <= r < n + 8
  {
    if n % 8 == 0 then n else n + 8 - n % 8
  }

  lemma {:induction false} Align8Is(size: nat)
    ensures size <= 0xFFFF_FFF8 ==> Align8(size) == UpToEight(size)
  {
  }

  // ---------------------------------------------------------------- lists that tile the heap

  /** The blocks lie side by side from `a` to `e`. */
  predicate Tiles(bs: seq<Block>, a: nat, e: nat) {
    if bs == [] then a == e
    else bs[0].addr == a && Tiles(bs[1..], bs[0].End(), e)
  }

  /** No two neighbours are both free. */
  predicate NoFreeNeighbours(bs: seq<Block>) {
    forall i :: 0 <= i < |bs| - 1 ==> !(bs[i].free && bs[i + 1].free)
  }

  /** What every list built by `kmalloc` and `kfree` satisfies. The last block is never empty, so every
      payload pointer lies inside the heap. */
  ghost predicate Proper(bs: seq<Block>, a: nat, e: nat) {
    bs != [] && Tiles(bs, a, e) && NoFreeNeighbours(bs) && LastNonEmpty(bs)
  }

  predicate LastNonEmpty(bs: seq<Block>) {
    bs != [] && bs[|bs| - 1].size > 0
  }

  /** The allocated blocks, in address order. */
  function Used(bs: seq<Block>): (r: seq<Block>)
    ensures forall b :: b in r ==> b in bs && !b.free
  {
    if bs == [] then []
    else (if bs[0].free then [] else [bs[0]]) + Used(bs[1..])
  }

  lemma {:induction false} TilesBounds(bs: seq<Block>, a: nat, e: nat)
    requires Tiles(bs, a, e)
    ensures a <= e
    ensures forall i :: 0 <= i < |bs| ==> a <= bs[i].addr && bs[i].End() <= e
    ensures bs != [] ==> a + HEADER <= e
  {
    if bs != [] {
      TilesBounds(bs[1..], bs[0].End(), e);
      assert forall i :: 1 <= i < |bs| ==> bs[i] == bs[1..][i - 1];
    }
  }

  /** Neighbours touch, and nothing overlaps: a block ends before any later block's header. */
  lemma {:induction false} TilesOrder(bs: seq<Block>, a: nat, e: nat)
    requires Tiles(bs, a, e)
    ensures forall i :: 0 <= i < |bs| - 1 ==> bs[i].End() == bs[i + 1].addr
    ensures forall i, j :: 0 <= i < j < |bs| ==> bs[i].End() <= bs[j].addr
  {
    if bs != [] {
      var r := bs[1..];
      TilesOrder(r, bs[0].End(), e);
      TilesBounds(r, bs[0].End(), e);
      assert forall i :: 1 <= i < |bs| ==> bs[i] == r[i - 1];
      assert r != [] ==> r[0].addr == bs[0].End();
    }
  }

  lemma {:induction false} TilesSplit(x: seq<Block>, y: seq<Block>, a: nat, m: nat, e: nat)
    requires Tiles(x, a, m) && Tiles(y, m, e)
    ensures Tiles(x + y, a, e)
  {
    if x == [] {
      assert x + y == y;
    } else {
      TilesSplit(x[1..], y, x[0].End(), m, e);
      assert (x + y)[1..] == x[1..] + y;
    }
  }

  lemma {:induction false} TilesTake(bs: seq<Block>, a: nat, e: nat, i: nat)
    requires Tiles(bs, a, e) && i <= |bs|
    ensures Tiles(bs[..i], a, if i < |bs| then bs[i].addr else e)
    ensures Tiles(bs[i..], if i < |bs| then bs[i].addr else e, e)
  {
    if i == 0 {
      assert bs[..0] == [] && bs[0..] == bs;
    } else {
      TilesTake(bs[1..], bs[0].End(), e, i - 1);
      assert bs[..i][1..] == bs[1..][..i - 1] && bs[1..][i - 1..] == bs[i..];
    }
  }

  lemma {:induction false} UsedConcat(x: seq<Block>, y: seq<Block>)
    ensures Used(x + y) == Used(x) + Used(y)
  {
    if x == [] {
      assert x + y == y;
    } else {
      var h := if x[0].free then [] else [x[0]];
      calc {
        Used(x + y);
        { assert (x + y)[0] == x[0] && (x + y)[1..] == x[1..] + y; }
        h + Used(x[1..] + y);
        { UsedConcat(x[1..], y); }
        h + (Used(x[1..]) + Used(y));
        { Associate(h, Used(x[1..]), Used(y)); }
        Used(x) + Used(y);
      }
    }
  }

  /** The allocated blocks determine the whole list: the free blocks are exactly the gaps. */
  lemma {:induction false} UsedDetermines(x: seq<Block>, y: seq<Block>, a: nat, e: nat)
    requires Tiles(x, a, e) && Tiles(y, a, e) && NoFreeNeighbours(x) && NoFreeNeighbours(y)
    requires Used(x) == Used(y)
    ensures x == y
    decreases |x|
  {
    TilesBounds(x, a, e);
    TilesBounds(y, a, e);
    if x != [] && y != [] {
      HeadsAgree(x, y, a, e);
      UsedDetermines(x[1..], y[1..], x[0].End(), e);
      assert x == [x[0]] + x[1..] && y == [y[0]] + y[1..];
    }
  }

  lemma {:induction false} HeadsAgree(x: seq<Block>, y: seq<Block>, a: nat, e: nat)
    requires Tiles(x, a, e) && Tiles(y, a, e) && NoFreeNeighbours(x) && NoFreeNeighbours(y)
    requires Used(x) == Used(y) && x != [] && y != []
    ensures x[0] == y[0] && Used(x[1..]) == Used(y[1..])
  {
    FirstUsed(x, a, e);
    FirstUsed(y, a, e);
    TilesBounds(x, a, e);
    if !x[0].free {
      HeadAllocated(x, y, a, e);
    } else if !y[0].free {
      HeadAllocated(y, x, a, e);
    } else {
      assert x[0].End() == y[0].End();
      assert Used(x) == Used(x[1..]) && Used(y) == Used(y[1..]);
    }
  }

  lemma {:induction false} HeadAllocated(x: seq<Block>, y: seq<Block>, a: nat, e: nat)
    requires Tiles(x, a, e) && Tiles(y, a, e) && NoFreeNeighbours(x) && NoFreeNeighbours(y)
    requires Used(x) == Used(y) && x != [] && y != [] && !x[0].free
    ensures x[0] == y[0] && Used(x[1..]) == Used(y[1..])
  {
    FirstUsed(y, a, e);
    assert Used(x) == [x[0]] + Used(x[1..]);
    assert !y[0].free;
    assert Used(y) == [y[0]] + Used(y[1..]);
    assert Used(x)[1..] == Used(x[1..]) && Used(y)[1..] == Used(y[1..]);
  }

  /** Where the first allocated block lies, seen from a free or an allocated head. */
  lemma {:induction false} FirstUsed(x: seq<Block>, a: nat, e: nat)
    requires Tiles(x, a, e) && NoFreeNeighbours(x) && x != []
    ensures !x[0].free ==> Used(x) != [] && Used(x)[0] == x[0]
    ensures x[0].free && Used(x) == [] ==> x[0].End() == e
    ensures x[0].free && Used(x) != [] ==> x[0].End() == Used(x)[0].addr
  {
    if x[0].free && |x| > 1 {
      assert !x[1].free && x[1..][0] == x[1];
      assert Used(x) == Used(x[1..]) == [x[1]] + Used(x[1..][1..]);
    }
  }

  // ---------------------------------------------------------------- allocation

  /** Index of the first free block that is large enough, or |bs|. */
  function FirstFit(bs: seq<Block>, size: nat): (i: nat)
    ensures i <= |bs|
    ensures i < |bs| ==> bs[i].free && bs[i].size >= size
    ensures forall j :: 0 <= j < i ==> !(bs[j].free && bs[j].size >= size)
  {
    if bs == [] || (bs[0].free && bs[0].size >= size) then 0
    else 1 + FirstFit(bs[1..], size)
  }

  lemma FirstFitIs(bs: seq<Block>, size: nat, i: nat)
    requires i <= |bs| && (i < |bs| ==> bs[i].free && bs[i].size >= size)
    requires forall j :: 0 <= j < i ==> !(bs[j].free && bs[j].size >= size)
    ensures FirstFit(bs, size) == i
  {
    var k := FirstFit(bs, size);
    assert !(k < i) && !(i < k);
  }

  /** A block is split when more than a header and 8 bytes would be left over. */
  predicate Splits(b: Block, size: nat)
    requires b.size >= size
  {
    b.size - size > HEADER + 8
  }

  /** The blocks that replace block `b` when `size` bytes of it are taken. */
  function Taken(b: Block, size: nat): seq<Block>
    requires b.size >= size
  {
    if Splits(b, size) then
      [Block(b.addr, size, false), Block(b.addr + HEADER + size, b.size - size - HEADER, true)]
    else [Block(b.addr, b.size, false)]
  }

  function AllocAt(bs: seq<Block>, i: nat, size: nat): seq<Block>
    requires i < |bs| && bs[i].size >= size
  {
    bs[..i] + Taken(bs[i], size) + bs[i + 1..]
  }

  datatype Allocation = Allocation(ptr: nat, blocks: seq<Block>)

  /** `kmalloc`: the pointer (0 on failure) and the new list. */
  function Malloc(bs: seq<Block>, request: nat): Allocation {
    if request == 0 then Allocation(0, bs)
    else
      var size := Align8(request);
      var i := FirstFit(bs, size);
      if i == |bs| then Allocation(0, bs)
      else Allocation(bs[i].Payload(), AllocAt(bs, i, size))
  }

  lemma {:induction false} MallocFails(bs: seq<Block>, request: nat)
    requires Malloc(bs, request).ptr == 0
    ensures Malloc(bs, request).blocks == bs
  {
  }

  // ---------------------------------------------------------------- freeing

  /** `coalesce`: one pass that merges a free block with its free right neighbour as long as possible. */
  function Coalesce(bs: seq<Block>): seq<Block>
    decreases |bs|
  {
    if |bs| < 2 then bs
    else if bs[0].free && bs[1].free && bs[0].End() == bs[1].addr then
      Coalesce([Block(bs[0].addr, bs[0].size + HEADER + bs[1].size, true)] + bs[2..])
    else [bs[0]] + Coalesce(bs[1..])
  }

  /** Index of the block with this payload pointer, or |bs|. */
  function IndexOf(bs: seq<Block>, ptr: nat): (i: nat)
    ensures i <= |bs|
    ensures i < |bs| ==> bs[i].Payload() == ptr
    ensures forall j :: 0 <= j < i ==> bs[j].Payload() != ptr
  {
    if bs == [] || bs[0].Payload() == ptr then 0 else 1 + IndexOf(bs[1..], ptr)
  }

  /** `kfree` of the payload pointer of a block of the list; any other pointer changes nothing. */
  function Free(bs: seq<Block>, ptr: nat): seq<Block> {
    var i := IndexOf(bs, ptr);
    if i == |bs| then bs else Coalesce(bs[i := bs[i].(free := true)])
  }

  /** Coalescing keeps the tiling and the allocated blocks, and leaves no free neighbours. */
  lemma {:induction false} CoalesceProper(bs: seq<Block>, a: nat, e: nat)
    requires Tiles(bs, a, e)
    ensures Tiles(Coalesce(bs), a, e) && NoFreeNeighbours(Coalesce(bs)) && Used(Coalesce(bs)) == Used(bs)
    ensures bs != [] ==> Coalesce(bs) != [] && Coalesce(bs)[0].free == bs[0].free
    decreases |bs|
  {
    if |bs| >= 2 {
      assert bs[1..][0] == bs[1] && bs[1..][1..] == bs[2..];
      if bs[0].free && bs[1].free {
        var merged := [Block(bs[0].addr, bs[0].size + HEADER + bs[1].size, true)] + bs[2..];
        assert merged[1..] == bs[2..];
        CoalesceProper(merged, a, e);
      } else {
        var r := Coalesce(bs[1..]);
        CoalesceProper(bs[1..], bs[0].End(), e);
        var all := [bs[0]] + r;
        assert all[1..] == r;
        assert forall i :: 1 <= i < |all| ==> all[i] == r[i - 1];
      }
    }
  }

  lemma {:induction false} CoalesceLast(bs: seq<Block>)
    requires LastNonEmpty(bs)
    ensures LastNonEmpty(Coalesce(bs))
    decreases |bs|
  {
    if |bs| >= 2 {
      if bs[0].free && bs[1].free && bs[0].End() == bs[1].addr {
        CoalesceLast([Block(bs[0].addr, bs[0].size + HEADER + bs[1].size, true)] + bs[2..]);
      } else {
        CoalesceLast(bs[1..]);
      }
    }
  }

  lemma {:induction false} LastOfConcat(x: seq<Block>, y: seq<Block>)
    ensures y != [] ==> (LastNonEmpty(x + y) <==> LastNonEmpty(y))
    ensures y == [] ==> (LastNonEmpty(x + y) <==> LastNonEmpty(x))
  {
    assert y == [] ==> x + y == x;
  }

  // ---------------------------------------------------------------- every step keeps a proper list

  lemma {:induction false} NoFreeNeighboursConcat(x: seq<Block>, y: seq<Block>)
    ensures NoFreeNeighbours(x + y) <==>
      NoFreeNeighbours(x) && NoFreeNeighbours(y) && (x != [] && y != [] ==> !(x[|x| - 1].free && y[0].free))
  {
    var z := x + y;
    if NoFreeNeighbours(z) {
      forall i | 0 <= i < |x| - 1
        ensures !(x[i].free && x[i + 1].free)
      {
        assert !(z[i].free && z[i + 1].free);
      }
      forall i | 0 <= i < |y| - 1
        ensures !(y[i].free && y[i + 1].free)
      {
        assert !(z[|x| + i].free && z[|x| + i + 1].free);
      }
      assert x != [] && y != [] ==> z[|x| - 1] == x[|x| - 1] && z[|x|] == y[0];
    }
    if NoFreeNeighbours(x) && NoFreeNeighbours(y) && (x != [] && y != [] ==> !(x[|x| - 1].free && y[0].free)) {
      forall i | 0 <= i < |z| - 1
        ensures !(z[i].free && z[i + 1].free)
      {
        if i < |x| - 1 {
          assert !(x[i].free && x[i + 1].free);
        } else if i >= |x| {
          assert !(y[i - |x|].free && y[i - |x| + 1].free);
        }
      }
    }
  }

  /** A list cut around one of its blocks. */
  lemma {:induction false} Cut(x: seq<Block>, b: Block, y: seq<Block>, a: nat, e: nat)
    requires Tiles(x + [b] + y, a, e)
    ensures Tiles(x, a, b.addr) && Tiles(y, b.End(), e)
    ensures Used(x + [b] + y) == Used(x) + Used([b]) + Used(y)
    ensures NoFreeNeighbours(x + [b] + y) ==>
      && NoFreeNeighbours(x) && NoFreeNeighbours(y)
      && (x != [] && b.free ==> !x[|x| - 1].free) && (y != [] && b.free ==> !y[0].free)
  {
    var bs := x + [b] + y;
    TilesTake(bs, a, e, |x|);
    assert bs[..|x|] == x && bs[|x|..] == [b] + y && ([b] + y)[1..] == y;
    UsedConcat(x + [b], y);
    UsedConcat(x, [b]);
    NoFreeNeighboursConcat(x + [b], y);
    NoFreeNeighboursConcat(x, [b]);
  }

  /** The same list with the block replaced by blocks that fill its place. */
  lemma {:induction false} Paste(x: seq<Block>, mid: seq<Block>, y: seq<Block>, a: nat, m: nat, n: nat, e: nat)
    requires Tiles(x, a, m) && Tiles(mid, m, n) && Tiles(y, n, e)
    ensures Tiles(x + mid + y, a, e)
    ensures Used(x + mid + y) == Used(x) + Used(mid) + Used(y)
  {
    TilesSplit(x, mid, a, m, n);
    TilesSplit(x + mid, y, a, n, e);
    UsedConcat(x + mid, y);
    UsedConcat(x, mid);
  }

  lemma {:induction false} ConcatReshape(x: seq<Block>, mid: seq<Block>, y: seq<Block>)
    requires mid != []
    ensures x + mid + y == x + [mid[0]] + (mid[1..] + y)
  {
  }

  lemma {:induction false} TakenFits(b: Block, size: nat)
    requires b.size >= size
    ensures var mid := Taken(b, size);
      && Tiles(mid, b.addr, b.End()) && NoFreeNeighbours(mid) && Used(mid) == [mid[0]]
      && mid[0].addr == b.addr && size <= mid[0].size && !mid[0].free
      && (b.size > 0 ==> LastNonEmpty(mid))
  {
    var mid := Taken(b, size);
    if Splits(b, size) {
      assert mid[1..] == [mid[1]] && mid[1..][1..] == [];
      assert mid[0].End() == mid[1].addr && mid[1].End() == b.End();
      UsedOfFree(mid[1]);
      assert Used(mid) == [mid[0]] + Used([mid[1]]);
    } else {
      assert mid[1..] == [] && mid[0].End() == b.End();
    }
  }

  /** Taking space from a free block keeps the list proper and adds one allocated block. */
  lemma {:induction false} AllocProper(x: seq<Block>, b: Block, y: seq<Block>, a: nat, e: nat, size: nat)
    requires Proper(x + [b] + y, a, e) && b.free && b.size >= size
    ensures Proper(x + Taken(b, size) + y, a, e)
    ensures Used(x + Taken(b, size) + y) == Used(x) + [Taken(b, size)[0]] + Used(y)
    ensures Used(x + [b] + y) == Used(x) + Used(y)
  {
    hide Taken, Tiles;
    var mid := Taken(b, size);
    Cut(x, b, y, a, e);
    UsedOfFree(b);
    assert Used(x) + [] == Used(x);
    TakenFits(b, size);
    hide Used;
    Paste(x, mid, y, a, b.addr, b.End(), e);
    NoFreeNeighboursConcat(x, mid);
    NoFreeNeighboursConcat(x + mid, y);
    LastOfConcat(x + [b], y);
    LastOfConcat(x + mid, y);
    LastOfConcat(x, mid);
    LastOfConcat(x, [b]);
  }

  /** Freeing keeps the list proper and removes exactly the freed block from the allocated ones. */
  lemma {:induction false} FreeProper(x: seq<Block>, b: Block, y: seq<Block>, a: nat, e: nat)
    requires Proper(x + [b] + y, a, e)
    ensures IndexOf(x + [b] + y, b.Payload()) == |x|
    ensures Proper(Free(x + [b] + y, b.Payload()), a, e)
    ensures Used(Free(x + [b] + y, b.Payload())) == Used(x) + Used(y)
  {
    hide Used, Coalesce;
    var bs := x + [b] + y;
    TilesOrder(bs, a, e);
    var k := IndexOf(bs, b.Payload());
    assert bs[|x|] == b && !(k < |x|) && !(|x| < k);
    var marked := b.(free := true);
    Cut(x, b, y, a, e);
    assert [marked][1..] == [];
    Paste(x, [marked], y, a, b.addr, b.End(), e);
    assert bs[|x| := marked] == x + [marked] + y;
    UsedOfFree(marked);
    assert Used(x) + [] == Used(x);
    CoalesceProper(x + [marked] + y, a, e);
    LastOfConcat(x + [b], y);
    LastOfConcat(x + [marked], y);
    CoalesceLast(x + [marked] + y);
  }

  lemma {:induction false} UpdateMiddle<T>(x: seq<T>, b: T, y: seq<T>, m: T)
    ensures (x + [b] + y)[|x|] == b && (x + [b] + y)[|x| := m] == x + [m] + y
  {
  }

  lemma {:induction false} FreeIsCoalesce(x: seq<Block>, b: Block, y: seq<Block>, a: nat, e: nat)
    requires Proper(x + [b] + y, a, e)
    ensures Free(x + [b] + y, b.Payload()) == Coalesce(x + [b.(free := true)] + y)
  {
    FreeProper(x, b, y, a, e);
    hide Coalesce, Proper, IndexOf;
    UpdateMiddle(x, b, y, b.(free := true));
  }

  lemma UsedOfFree(b: Block)
    requires b.free
    ensures Used([b]) == []
  {
  }

  lemma {:induction false} TakeFreeRestores(x: seq<Block>, b: Block, y: seq<Block>, a: nat, e: nat, size: nat)
    requires Proper(x + [b] + y, a, e) && b.free && b.size >= size
    ensures Free(x + Taken(b, size) + y, b.Payload()) == x + [b] + y
  {
    hide Used, Free, Tiles, Taken, LastNonEmpty, NoFreeNeighbours;
    var mid := Taken(b, size);
    AllocProper(x, b, y, a, e, size);
    TakenFits(b, size);
    var rest := mid[1..] + y;
    ConcatReshape(x, mid, y);
    FreeProper(x, mid[0], rest, a, e);
    Cut(x, mid[0], rest, a, e);
    UsedOfAllocated(mid[0]);
    SameTail(Used(x) + [mid[0]], Used(rest), Used(y));
    UsedDetermines(Free(x + mid + y, mid[0].Payload()), x + [b] + y, a, e);
  }

  /** Heap restoration, one call: `kmalloc` followed by `kfree` of the result gives back the identical list. */
  lemma {:induction false} MallocFreeRestores(bs: seq<Block>, a: nat, e: nat, request: nat)
    requires Proper(bs, a, e) && Malloc(bs, request).ptr != 0
    ensures Free(Malloc(bs, request).blocks, Malloc(bs, request).ptr) == bs
  {
    var size := Align8(request);
    var i := FirstFit(bs, size);
    var x, b, y := bs[..i], bs[i], bs[i + 1..];
    assert bs == x + [b] + y;
    hide Used, Free, Tiles, Taken, LastNonEmpty, NoFreeNeighbours, FirstFit, Proper;
    TakeFreeRestores(x, b, y, a, e, size);
  }

  lemma UsedOfAllocated(b: Block)
    requires !b.free
    ensures Used([b]) == [b]
  {
  }

  lemma {:induction false} SameTail(p: seq<Block>, s: seq<Block>, t: seq<Block>)
    requires p + s == p + t
    ensures s == t
  {
    assert s == (p + s)[|p|..] && t == (p + t)[|p|..];
  }

  // ---------------------------------------------------------------- accounting

  function UsedBytes(bs: seq<Block>): nat {
    if bs == [] then 0 else (if bs[0].free then 0 else bs[0].size) + UsedBytes(bs[1..])
  }

  function FreeBytes(bs: seq<Block>): nat {
    if bs == [] then 0 else (if bs[0].free then bs[0].size else 0) + FreeBytes(bs[1..])
  }

  function FreeCount(bs: seq<Block>): nat {
    if bs == [] then 0 else (if bs[0].free then 1 else 0) + FreeCount(bs[1..])
  }

  /** used + free + headers is the size of the heap. */
  lemma {:induction false} BytesConserved(bs: seq<Block>, a: nat, e: nat)
    requires Tiles(bs, a, e)
    ensures a + UsedBytes(bs) + FreeBytes(bs) + HEADER * |bs| == e
  {
    if bs != [] {
      BytesConserved(bs[1..], bs[0].End(), e);
    }
  }
}
