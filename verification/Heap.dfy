/** The kernel heap of heap.c: block headers linked through memory, updated in place. */
module Heap {
  import opened Arithmetic
  import opened Bytes
  import opened HeapBlocks
  import opened HeapMemory

  class KernelHeap {
    var heapStart: nat
    var heapEnd: nat
    var head: nat
    /** All of memory: the headers, the payloads, and everything outside the heap. */
    var mem: seq<byte>
    ghost var blocks: seq<Block>

    ghost predicate Valid()
      reads this
    {
      && 0 < heapStart && heapEnd < TWO32 && |mem| == TWO32
      && Proper(blocks, heapStart, heapEnd)
      && head == StartOf(blocks, 0) && Linked(mem, blocks, 0)
    }

    /** `heap_init`. A size of 12 or less wraps and leaves no proper heap. */
    constructor (memory: seq<byte>, start: nat, size: nat)
      requires |memory| == TWO32 && start + size < TWO32 && start + HEADER <= TWO32
      ensures heapStart == start && heapEnd == start + size && head == start
      ensures blocks == [Block(start, (size - HEADER) % TWO32, true)]
      ensures mem == Stamped(memory, blocks, 0)
      ensures Valid() <==> 0 < start && HEADER < size
    {
      heapStart, heapEnd := start, start + size;
      head := start;
      mem := PutU32(PutU32(PutU32(memory, start, (size - HEADER) % TWO32), start + 4, 0), start + 8, 1);
      blocks := [Block(start, (size - HEADER) % TWO32, true)];
      new;
      InitialProper(start, size);
      InitialLinked(memory, blocks[0]);
    }

    /** `p->size = v` */
    method SetSize(p: nat, v: nat)
      requires p + HEADER <= |mem| && v < TWO32
      modifies this`mem
      ensures SameExcept(old(mem), mem, p, p + HEADER) && |mem| == old(|mem|)
      ensures ReadHeader(mem, p) == old(ReadHeader(mem, p)).(size := v)
    {
      WordWritten(mem, p, v);
      WordKept(mem, PutU32(mem, p, v), p, p + 4, p + 4);
      WordKept(mem, PutU32(mem, p, v), p, p + 4, p + 8);
      mem := PutU32(mem, p, v);
    }

    /** `p->next = v` */
    method SetNext(p: nat, v: nat)
      requires p + HEADER <= |mem| && v < TWO32
      modifies this`mem
      ensures SameExcept(old(mem), mem, p, p + HEADER) && |mem| == old(|mem|)
      ensures ReadHeader(mem, p) == old(ReadHeader(mem, p)).(next := v)
    {
      WordWritten(mem, p + 4, v);
      WordKept(mem, PutU32(mem, p + 4, v), p + 4, p + 8, p);
      WordKept(mem, PutU32(mem, p + 4, v), p + 4, p + 8, p + 8);
      mem := PutU32(mem, p + 4, v);
    }

    /** `p->free = v` */
    method SetFree(p: nat, v: nat)
      requires p + HEADER <= |mem| && v < TWO32
      modifies this`mem
      ensures mem == PutU32(old(mem), p + 8, v)
      ensures SameExcept(old(mem), mem, p, p + HEADER) && |mem| == old(|mem|)
      ensures ReadHeader(mem, p) == old(ReadHeader(mem, p)).(free := v)
    {
      WordWritten(mem, p + 8, v);
      WordKept(mem, PutU32(mem, p + 8, v), p + 8, p + 12, p);
      WordKept(mem, PutU32(mem, p + 8, v), p + 8, p + 12, p + 4);
      mem := PutU32(mem, p + 8, v);
    }

    /** `kmalloc`: the block list of a first-fit allocation, and memory with just its headers written. */
    method Kmalloc(request: nat) returns (ptr: nat)
      requires Valid() && request < TWO32
      modifies this`mem, this`blocks
      ensures Valid()
      ensures Malloc(old(blocks), request) == Allocation(ptr, blocks)
      ensures mem == AllocMemory(old(mem), old(blocks), request)
    {
      if request == 0 {
        return 0;
      }
      var size := Align8(request);
      var curr := FindFit(size);
      ghost var bs, i := blocks, FirstFit(blocks, size);
      if curr == 0 {
        return 0;
      }
      assert bs == bs[..i] + [bs[i]] + bs[i + 1..];
      hide Taken, Stamped, Proper, Linked;
      TakeBlock(curr, size, bs[..i], bs[i], bs[i + 1..]);
      return curr + HEADER;
    }

    /** The search loop of `kmalloc`. */
    method FindFit(size: nat) returns (curr: nat)
      requires Valid()
      ensures var i := FirstFit(blocks, size);
        curr == (if i < |blocks| then blocks[i].addr else 0) && (i < |blocks| ==> curr != 0)
    {
      curr := head;
      ghost var i := 0;
      TilesBounds(blocks, heapStart, heapEnd);
      hide ReadHeader, Tiles, NoFreeNeighbours, LastNonEmpty, FirstFit;
      while curr != 0
        invariant i <= |blocks| && curr == StartOf(blocks[i..], 0) && Linked(mem, blocks[i..], 0)
        invariant forall j :: 0 <= j < i ==> !(blocks[j].free && blocks[j].size >= size)
        decreases |blocks| - i
      {
        var block := ReadHeader(mem, curr);
        assert blocks[i..][0] == blocks[i] && blocks[i..][1..] == blocks[i + 1..];
        if block.free != 0 && block.size >= size {
          FirstFitIs(blocks, size, i);
          return;
        }
        curr := block.next;
        i := i + 1;
      }
      FirstFitIs(blocks, size, i);
    }

    /** `kmalloc` once a block fits: split it if worthwhile, mark it used. */
    method TakeBlock(curr: nat, size: nat, ghost x: seq<Block>, ghost b: Block, ghost y: seq<Block>)
      requires Valid() && blocks == x + [b] + y && curr == b.addr && b.free && b.size >= size
      modifies this`mem, this`blocks
      ensures Valid() && blocks == x + Taken(b, size) + y && mem == Stamped(old(mem), blocks, 0)
    {
      hide Linked, Tiles, LastNonEmpty, NoFreeNeighbours, Used, Stamped, ReadHeader, Taken, SameButHeaders;
      AllocProper(x, b, y, heapStart, heapEnd, size);
      LinkedAt(mem, x, b, y);
      BlockInside(x, b, y, heapStart, heapEnd);
      SplitBlock(curr, size, b, StartOf(y, 0));
      TakenInMemory(old(mem), mem, x, b, y, heapStart, heapEnd, size);
      blocks := x + Taken(b, size) + y;
      IsStamped(old(mem), mem, blocks, heapStart, heapEnd);
    }

    /** The header writes of `kmalloc`. */
    method SplitBlock(curr: nat, size: nat, ghost b: Block, ghost after: nat)
      requires |mem| == TWO32 && curr == b.addr && b.free && b.size >= size && b.End() < TWO32 && after < TWO32
      requires ReadHeader(mem, b.addr) == HeaderOf(b, after)
      modifies this`mem
      ensures |mem| == TWO32 && Linked(mem, Taken(b, size), after) && SameButHeaders(old(mem), mem, Taken(b, size))
    {
      hide ReadHeader, SameExcept, SameButHeaders, Linked;
      var remaining := ReadHeader(mem, curr).size - size;
      ghost var m1 := mem;
      if remaining > HEADER + 8 {
        var next := curr + HEADER + size;
        NewHeader(next, remaining - HEADER, ReadHeader(mem, curr).next, 1);
        m1 := mem;
        HeaderKept(old(mem), m1, next, next + HEADER, curr);
        SetNext(curr, next);
        ghost var m2 := mem;
        SetSize(curr, size);
        SameTwice(m1, m2, mem, curr, curr + HEADER);
      } else {
        SameItself(mem, curr, curr + HEADER);
      }
      ghost var m3 := mem;
      SetFree(curr, 0);
      SameTwice(m1, m3, mem, curr, curr + HEADER);
      if Splits(b, size) {
        HeaderKept(m1, mem, curr, curr + HEADER, curr + HEADER + size);
        SplitLinks(old(mem), m1, mem, b, size, after);
      } else {
        WholeLinks(old(mem), mem, b, size, after);
      }
    }

    /** A header where there was none. */
    method NewHeader(p: nat, size: nat, next: nat, free: nat)
      requires p + HEADER <= |mem| && size < TWO32 && next < TWO32 && free < TWO32
      modifies this`mem
      ensures SameExcept(old(mem), mem, p, p + HEADER) && |mem| == old(|mem|)
      ensures ReadHeader(mem, p) == Header(size, next, free)
    {
      hide ReadHeader, SameExcept;
      SetSize(p, size);
      ghost var m1 := mem;
      SetNext(p, next);
      SameTwice(old(mem), m1, mem, p, p + HEADER);
      ghost var m2 := mem;
      SetFree(p, free);
      SameTwice(old(mem), m2, mem, p, p + HEADER);
    }

    /** `coalesce`: the list in memory becomes the coalesced list, and only its headers are written. */
    method CoalesceList()
      requires 0 < heapStart && heapEnd < TWO32 && |mem| == TWO32 && blocks != []
      requires Tiles(blocks, heapStart, heapEnd) && head == StartOf(blocks, 0) && Linked(mem, blocks, 0)
      modifies this`mem, this`blocks
      ensures blocks == Coalesce(old(blocks)) && head == StartOf(blocks, 0) && Linked(mem, blocks, 0)
      ensures |mem| == TWO32 && SameButHeaders(old(mem), mem, blocks)
    {
      hide Linked, Tiles, ReadHeader, SameButHeaders;
      var curr := head;
      ghost var done, rest: seq<Block> := [], blocks;
      assert done + rest == blocks;
      HeadLinked(mem, done, rest);
      NoHeaderChanged(mem, done + [rest[0]]);
      while ReadHeader(mem, curr).next != 0
        invariant |mem| == TWO32 && rest != [] && blocks == done + rest && curr == rest[0].addr && curr + HEADER <= |mem|
        invariant head == StartOf(blocks, 0)
        invariant Tiles(blocks, heapStart, heapEnd) && Linked(mem, blocks, 0)
        invariant Coalesce(old(blocks)) == done + Coalesce(rest)
        invariant SameButHeaders(old(mem), mem, done + [rest[0]])
        decreases |rest|
      {
        hide Coalesce;
        NextInMemory(mem, done, rest, heapStart, heapEnd);
        var block := ReadHeader(mem, curr);
        var next := ReadHeader(mem, block.next);
        if block.free != 0 && next.free != 0 && curr + HEADER + block.size == block.next {
          ghost var before := mem;
          MergeFits(done, rest, heapStart, heapEnd);
          SetSize(curr, block.size + HEADER + next.size);
          ghost var m1 := mem;
          SetNext(curr, next.next);
          SameTwice(before, m1, mem, curr, curr + HEADER);
          MergeInMemory(before, mem, done, rest, heapStart, heapEnd);
          HeaderChanged(old(mem), before, mem, done, rest[0], Merged(rest[0], rest[1]));
          rest := [Merged(rest[0], rest[1])] + rest[2..];
          blocks := done + rest;
        } else {
          SkipBlock(done, rest);
          MoreHeaders(old(mem), mem, done + [rest[0]], [rest[1]]);
          done := done + [rest[0]];
          rest := rest[1..];
          curr := block.next;
        }
      }
      LastInMemory(mem, done, rest, heapStart, heapEnd);
    }

    /** `kfree` of a null pointer, of a pointer outside the heap, or of the payload of a block. */
    method Kfree(ptr: nat)
      requires Valid()
      requires ptr == 0 || ptr < heapStart + HEADER || ptr >= heapEnd || IndexOf(blocks, ptr) < |blocks|
      modifies this`mem, this`blocks
      ensures Valid() && blocks == Free(old(blocks), ptr) && mem == FreeMemory(old(mem), old(blocks), ptr)
    {
      ghost var bs, i := blocks, IndexOf(blocks, ptr);
      if ptr == 0 || ptr < heapStart + HEADER || ptr >= heapEnd {
        PayloadInside(bs, heapStart, heapEnd);
        return;
      }
      assert bs == bs[..i] + [bs[i]] + bs[i + 1..];
      Release(ptr - HEADER, bs[..i], bs[i], bs[i + 1..]);
    }

    /** The end of `kfree`: mark the block at this address free and coalesce. */
    method Release(addr: nat, ghost x: seq<Block>, ghost b: Block, ghost y: seq<Block>)
      requires Valid() && blocks == x + [b] + y && addr == b.addr
      modifies this`mem, this`blocks
      ensures Valid() && blocks == Free(old(blocks), b.Payload())
      ensures mem == Stamped(MarkedFree(old(mem), b.Payload()), blocks, 0)
    {
      hide Linked, Tiles, Free, LastNonEmpty, NoFreeNeighbours, Coalesce, ReadHeader, SameExcept, SameButHeaders, Stamped, PutU32;
      FreeProper(x, b, y, heapStart, heapEnd);
      FreeIsCoalesce(x, b, y, heapStart, heapEnd);
      LinkedAt(mem, x, b, y);
      BlockInside(x, b, y, heapStart, heapEnd);
      SetFree(addr, 1);
      MarkInMemory(old(mem), mem, x, b, y, heapStart, heapEnd);
      ghost var marked := mem;
      blocks := x + [b.(free := true)] + y;
      CoalesceList();
      IsStamped(marked, mem, blocks, heapStart, heapEnd);
    }

    /** `heap_stats` */
    method HeapStats() returns (used: nat, free: nat, count: nat, freeCount: nat)
      requires Valid()
      ensures used == UsedBytes(blocks) && free == FreeBytes(blocks)
      ensures count == |blocks| && freeCount == FreeCount(blocks)
      ensures used + free + HEADER * count == heapEnd - heapStart
    {
      used, free, count, freeCount := 0, 0, 0, 0;
      var curr := head;
      TilesBounds(blocks, heapStart, heapEnd);
      BytesConserved(blocks, heapStart, heapEnd);
      while curr != 0
        invariant count <= |blocks| && curr == StartOf(blocks[count..], 0) && Linked(mem, blocks[count..], 0)
        invariant used + UsedBytes(blocks[count..]) == UsedBytes(blocks)
        invariant free + FreeBytes(blocks[count..]) == FreeBytes(blocks)
        invariant freeCount + FreeCount(blocks[count..]) == FreeCount(blocks)
        decreases |blocks| - count
      {
        assert blocks[count..][0] == blocks[count] && blocks[count..][1..] == blocks[count + 1..];
        var block := ReadHeader(mem, curr);
        count := count + 1;
        if block.free != 0 {
          free := free + block.size;
          freeCount := freeCount + 1;
        } else {
          used := used + block.size;
        }
        curr := block.next;
      }
    }
  }

  lemma {:induction false} InitialProper(start: nat, size: nat)
    requires size < TWO32
    ensures Proper([Block(start, (size - HEADER) % TWO32, true)], start, start + size) <==> HEADER < size
    ensures HEADER < size ==> (size - HEADER) % TWO32 == size - HEADER
  {
    var b := Block(start, (size - HEADER) % TWO32, true);
    assert [b][1..] == [];
    assert Tiles([b], start, start + size) <==> b.End() == start + size;
  }

  lemma {:induction false} InitialLinked(mem: seq<byte>, b: Block)
    requires b.addr + HEADER <= |mem| && b.size < TWO32 && b.free
    ensures var m := PutU32(PutU32(PutU32(mem, b.addr, b.size), b.addr + 4, 0), b.addr + 8, 1);
      m == Stamped(mem, [b], 0) && Linked(m, [b], 0)
  {
    assert [b][1..] == [];
    assert Stamped(mem, [b], 0) == WriteHeader(mem, b.addr, HeaderOf(b, 0));
    HeaderWritten(mem, b.addr, HeaderOf(b, 0));
  }

  // ---------------------------------------------------------------- headers in memory

  lemma {:induction false} SameItself(mem: seq<byte>, lo: int, hi: int)
    ensures SameExcept(mem, mem, lo, hi)
  {
  }

  lemma {:induction false} NoHeaderChanged(mem: seq<byte>, bs: seq<Block>)
    ensures SameButHeaders(mem, mem, bs)
  {
  }

  lemma {:induction false} MoreHeaders(mem: seq<byte>, mem': seq<byte>, bs: seq<Block>, more: seq<Block>)
    requires SameButHeaders(mem, mem', bs)
    ensures SameButHeaders(mem, mem', bs + more)
  {
    forall q | 0 <= q < |mem| && !InHeaders(bs + more, q)
      ensures mem'[q] == mem[q]
    {
      InHeadersConcat(bs, more, q);
    }
  }

  /** One more write to the header of the last block, whatever its new size. */
  lemma {:induction false} HeaderChanged(m0: seq<byte>, m1: seq<byte>, m2: seq<byte>, done: seq<Block>, b: Block, c: Block)
    requires SameButHeaders(m0, m1, done + [b]) && SameExcept(m1, m2, b.addr, b.Payload()) && c.addr == b.addr
    ensures SameButHeaders(m0, m2, done + [c])
  {
    forall q | 0 <= q < |m0| && !InHeaders(done + [c], q)
      ensures m2[q] == m0[q]
    {
      InHeadersConcat(done, [b], q);
      InHeadersConcat(done, [c], q);
      InHeadersTail([b], q);
      InHeadersTail([c], q);
      assert [b][1..] == [] && [c][1..] == [];
    }
  }

  lemma {:induction false} BlockInside(x: seq<Block>, b: Block, y: seq<Block>, a: nat, e: nat)
    requires Proper(x + [b] + y, a, e)
    ensures Tiles(x + [b] + y, a, e) && a <= b.addr && b.End() <= e && StartOf(y, 0) <= e
  {
    var bs := x + [b] + y;
    TilesBounds(bs, a, e);
    assert bs[|x|] == b;
    assert y != [] ==> bs[|x| + 1] == y[0];
  }

  lemma {:induction false} SplitLinks(m0: seq<byte>, m1: seq<byte>, m2: seq<byte>, b: Block, size: nat, after: nat)
    requires b.size >= size && Splits(b, size) && b.End() <= |m0|
    requires SameExcept(m0, m1, b.addr + HEADER + size, b.addr + HEADER + size + HEADER)
    requires SameExcept(m1, m2, b.addr, b.addr + HEADER)
    requires ReadHeader(m2, b.addr) == Header(size, b.addr + HEADER + size, 0)
    requires ReadHeader(m2, b.addr + HEADER + size) == Header(b.size - size - HEADER, after, 1)
    ensures Linked(m2, Taken(b, size), after) && SameButHeaders(m0, m2, Taken(b, size))
  {
    hide ReadHeader;
    var mid := Taken(b, size);
    assert mid[1..] == [mid[1]] && mid[1..][1..] == [];
    assert Linked(m2, [mid[1]], after);
    forall q | 0 <= q < |m0| && !InHeaders(mid, q)
      ensures m2[q] == m0[q]
    {
      InHeadersTail(mid, q);
      InHeadersTail(mid[1..], q);
    }
  }

  lemma {:induction false} WholeLinks(m0: seq<byte>, m2: seq<byte>, b: Block, size: nat, after: nat)
    requires b.size >= size && !Splits(b, size) && b.End() <= |m0|
    requires SameExcept(m0, m2, b.addr, b.addr + HEADER)
    requires ReadHeader(m2, b.addr) == Header(b.size, after, 0)
    ensures Linked(m2, Taken(b, size), after) && SameButHeaders(m0, m2, Taken(b, size))
  {
    hide ReadHeader;
    var mid := Taken(b, size);
    assert mid[1..] == [];
    forall q | 0 <= q < |m0| && !InHeaders(mid, q)
      ensures m2[q] == m0[q]
    {
      InHeadersTail(mid, q);
    }
  }

  /** Writing only headers inside the place of a block changes nothing outside that place. */
  lemma {:induction false} HeadersWithin(m0: seq<byte>, m1: seq<byte>, mid: seq<Block>, lo: nat, hi: nat)
    requires SameButHeaders(m0, m1, mid) && Tiles(mid, lo, hi)
    ensures SameExcept(m0, m1, lo, hi)
  {
    forall q | 0 <= q < |m0| && !(lo <= q < hi)
      ensures m1[q] == m0[q]
    {
      if InHeaders(mid, q) {
        HeadersInside(mid, lo, hi, q);
      }
    }
  }

  /** Splitting and marking in memory links the new list. */
  lemma {:induction false} TakenInMemory(m0: seq<byte>, m1: seq<byte>, x: seq<Block>, b: Block, y: seq<Block>, a: nat, e: nat, size: nat)
    requires Tiles(x + [b] + y, a, e) && Linked(m0, x + [b] + y, 0) && b.free && b.size >= size
    requires Linked(m1, Taken(b, size), StartOf(y, 0)) && SameButHeaders(m0, m1, Taken(b, size))
    ensures var bs := x + Taken(b, size) + y;
      Linked(m1, bs, 0) && StartOf(bs, 0) == StartOf(x + [b] + y, 0) && SameButHeaders(m0, m1, bs)
  {
    var mid := Taken(b, size);
    TakenFits(b, size);
    hide Tiles, Linked, Taken, SameButHeaders, SameExcept;
    HeadersWithin(m0, m1, mid, b.addr, b.End());
    Relink(m0, m1, x, b, mid, y, a, e);
    HeadersAmong(m0, m1, x, mid, y);
  }

  lemma {:induction false} HeadersAmong(m0: seq<byte>, m1: seq<byte>, x: seq<Block>, mid: seq<Block>, y: seq<Block>)
    requires SameButHeaders(m0, m1, mid)
    ensures SameButHeaders(m0, m1, x + mid + y)
  {
    forall q | 0 <= q < |m0| && !InHeaders(x + mid + y, q)
      ensures m1[q] == m0[q]
    {
      InHeadersConcat(x + mid, y, q);
      InHeadersConcat(x, mid, q);
    }
  }

  lemma {:induction false} OneLinked(mem: seq<byte>, b: Block, after: nat)
    requires b.addr + HEADER <= |mem| && ReadHeader(mem, b.addr) == HeaderOf(b, after)
    ensures Linked(mem, [b], after) && Tiles([b], b.addr, b.End())
  {
    assert [b][1..] == [];
  }

  /** Setting the free flag of one header. */
  lemma {:induction false} MarkInMemory(m0: seq<byte>, m1: seq<byte>, x: seq<Block>, b: Block, y: seq<Block>, a: nat, e: nat)
    requires Tiles(x + [b] + y, a, e) && Linked(m0, x + [b] + y, 0)
    requires b.addr + HEADER <= |m1| && SameExcept(m0, m1, b.addr, b.Payload())
    requires ReadHeader(m1, b.addr) == HeaderOf(b.(free := true), StartOf(y, 0))
    ensures var bs := x + [b.(free := true)] + y;
      Tiles(bs, a, e) && Linked(m1, bs, 0) && StartOf(bs, 0) == StartOf(x + [b] + y, 0)
  {
    var marked := b.(free := true);
    hide Tiles, Linked, ReadHeader;
    OneLinked(m1, marked, StartOf(y, 0));
    Relink(m0, m1, x, b, [marked], y, a, e);
  }

  lemma {:induction false} PayloadInside(bs: seq<Block>, a: nat, e: nat)
    requires Proper(bs, a, e)
    ensures forall i :: 0 <= i < |bs| ==> a + HEADER <= bs[i].Payload() < e
  {
    TilesBounds(bs, a, e);
    TilesOrder(bs, a, e);
    forall i | 0 <= i < |bs|
      ensures a + HEADER <= bs[i].Payload() < e
    {
      if i < |bs| - 1 {
        assert bs[i].End() <= bs[|bs| - 1].addr;
      }
    }
  }

  lemma {:induction false} HeadLinked(mem: seq<byte>, done: seq<Block>, rest: seq<Block>)
    requires rest != [] && Linked(mem, done + rest, 0)
    ensures rest[0].addr + HEADER <= |mem|
  {
    LinkedConcat(mem, done, rest, 0);
  }

  /** The block at hand and its successor are where the headers say, side by side. */
  lemma {:induction false} NextInMemory(mem: seq<byte>, done: seq<Block>, rest: seq<Block>, a: nat, e: nat)
    requires rest != [] && Linked(mem, done + rest, 0) && Tiles(done + rest, a, e)
    requires rest[0].addr + HEADER <= |mem| && ReadHeader(mem, rest[0].addr).next != 0
    ensures |rest| >= 2 && rest[1].addr + HEADER <= |mem| && rest[0].End() == rest[1].addr
    ensures ReadHeader(mem, rest[0].addr) == HeaderOf(rest[0], rest[1].addr)
    ensures ReadHeader(mem, rest[1].addr) == HeaderOf(rest[1], StartOf(rest[2..], 0))
  {
    hide ReadHeader;
    LinkedConcat(mem, done, rest, 0);
    TilesTake(done + rest, a, e, |done|);
    assert (done + rest)[|done|..] == rest;
    assert |rest| >= 2;
    assert rest[1..][0] == rest[1] && rest[1..][1..] == rest[2..];
  }

  /** Two free neighbours as one block. */
  function Merged(b: Block, c: Block): Block {
    Block(b.addr, b.size + HEADER + c.size, true)
  }

  lemma {:induction false} MergeFits(done: seq<Block>, rest: seq<Block>, a: nat, e: nat)
    requires |rest| >= 2 && Tiles(done + rest, a, e)
    ensures rest[0].End() <= e && rest[1].End() <= e && StartOf(rest[2..], 0) <= e
  {
    var bs := done + rest;
    TilesBounds(bs, a, e);
    assert bs[|done|] == rest[0] && bs[|done| + 1] == rest[1];
    assert |rest| > 2 ==> bs[|done| + 2] == rest[2];
  }

  lemma {:induction false} MergeInMemory(m0: seq<byte>, m1: seq<byte>, done: seq<Block>, rest: seq<Block>, a: nat, e: nat)
    requires |rest| >= 2 && Linked(m0, done + rest, 0) && Tiles(done + rest, a, e)
    requires rest[0].free && rest[1].free && rest[0].End() == rest[1].addr && rest[0].addr + HEADER <= |m1|
    requires SameExcept(m0, m1, rest[0].addr, rest[0].Payload())
    requires ReadHeader(m1, rest[0].addr) == HeaderOf(Merged(rest[0], rest[1]), StartOf(rest[2..], 0))
    ensures var rest' := [Merged(rest[0], rest[1])] + rest[2..];
      && Linked(m1, done + rest', 0) && Tiles(done + rest', a, e)
      && StartOf(done + rest', 0) == StartOf(done + rest, 0) && Coalesce(rest) == Coalesce(rest')
  {
    var merged, tail := Merged(rest[0], rest[1]), rest[2..];
    var rest' := [merged] + tail;
    hide Coalesce;
    CoalesceMerges(rest);
    MergeParts(m0, done, rest, a, e);
    forall q | 0 <= q < |m0| && (InHeaders(done, q) || InHeaders(tail, q))
      ensures m1[q] == m0[q]
    {
      if InHeaders(done, q) {
        HeadersInside(done, a, rest[0].addr, q);
      } else {
        HeadersInside(tail, merged.End(), e, q);
      }
    }
    assert rest'[1..] == tail && rest'[0] == merged;
    assert Tiles(rest', rest[0].addr, e);
    hide InHeaders, ReadHeader, Tiles;
    LinkedFrame(m0, m1, done, rest[0].addr);
    LinkedFrame(m0, m1, tail, 0);
    assert Linked(m1, rest', 0);
    LinkedConcat(m1, done, rest', 0);
    TilesSplit(done, rest', a, rest[0].addr, e);
  }

  lemma {:induction false} MergeParts(mem: seq<byte>, done: seq<Block>, rest: seq<Block>, a: nat, e: nat)
    requires |rest| >= 2 && Linked(mem, done + rest, 0) && Tiles(done + rest, a, e)
    ensures Tiles(done, a, rest[0].addr) && Tiles(rest[2..], rest[1].End(), e)
    ensures Linked(mem, done, rest[0].addr) && Linked(mem, rest[2..], 0)
  {
    hide ReadHeader;
    LinkedConcat(mem, done, rest, 0);
    SecondTail(rest);
    assert Linked(mem, rest[1..], 0);
    hide Linked;
    TilesTake(done + rest, a, e, |done|);
    assert (done + rest)[..|done|] == done && (done + rest)[|done|..] == rest;
    assert Tiles(rest[1..], rest[0].End(), e);
  }

  lemma {:induction false} SecondTail(rest: seq<Block>)
    requires |rest| >= 2
    ensures rest[1..] != [] && rest[1..][0] == rest[1] && rest[1..][1..] == rest[2..]
  {
  }

  lemma {:induction false} CoalesceMerges(rest: seq<Block>)
    requires |rest| >= 2 && rest[0].free && rest[1].free && rest[0].End() == rest[1].addr
    ensures Coalesce(rest) == Coalesce([Merged(rest[0], rest[1])] + rest[2..])
  {
  }

  lemma {:induction false} SkipBlock(done: seq<Block>, rest: seq<Block>)
    requires |rest| >= 2 && rest[0].End() == rest[1].addr && !(rest[0].free && rest[1].free)
    ensures done + Coalesce(rest) == done + [rest[0]] + Coalesce(rest[1..])
    ensures done + rest == done + [rest[0]] + rest[1..]
  {
  }

  lemma {:induction false} LastInMemory(mem: seq<byte>, done: seq<Block>, rest: seq<Block>, a: nat, e: nat)
    requires rest != [] && Linked(mem, done + rest, 0) && Tiles(done + rest, a, e) && 0 < a
    requires rest[0].addr + HEADER <= |mem| && ReadHeader(mem, rest[0].addr).next == 0
    ensures |rest| == 1 && Coalesce(rest) == rest && done + [rest[0]] == done + rest
  {
    LinkedConcat(mem, done, rest, 0);
    TilesBounds(done + rest, a, e);
    TilesTake(done + rest, a, e, |done|);
    assert (done + rest)[|done|..] == rest;
    TilesBounds(rest[1..], rest[0].End(), e);
  }
}
