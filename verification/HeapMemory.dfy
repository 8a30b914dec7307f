/** Block headers in memory. The 12 bytes in front of every payload lie in the same memory as the
    payloads, so what header writes spare and what payload writes spare has to be proved. */
module HeapMemory {
  import opened Arithmetic
  import opened Bytes
  import opened HeapBlocks

  /** `struct heap_block`: three words; `next` is 0 at the end of the list, `free` is 1 or 0. */
  datatype Header = Header(size: nat, next: nat, free: nat)

  function ReadHeader(mem: seq<byte>, p: nat): Header
    requires p + HEADER <= |mem|
  {
    Header(U32(mem, p), U32(mem, p + 4), U32(mem, p + 8))
  }

  /** The header of a block whose successor in the list starts at `next`. */
  function HeaderOf(b: Block, next: nat): Header {
    Header(b.size, next, if b.free then 1 else 0)
  }

  /** Address of the first block of a list, or `after` when it is empty. */
  function StartOf(bs: seq<Block>, after: nat): nat {
    if bs == [] then after else bs[0].addr
  }

  /** The headers in memory chain these blocks together, the last one pointing to `after`. */
  predicate Linked(mem: seq<byte>, bs: seq<Block>, after: nat) {
    bs == [] ||
    (&& bs[0].addr + HEADER <= |mem|
     && ReadHeader(mem, bs[0].addr) == HeaderOf(bs[0], StartOf(bs[1..], after))
     && Linked(mem, bs[1..], after))
  }

  /** Byte `q` belongs to a header of the list. */
  predicate InHeaders(bs: seq<Block>, q: int) {
    exists i :: 0 <= i < |bs| && bs[i].addr <= q < bs[i].Payload()
  }

  /** Only header bytes of the list differ. */
  ghost predicate SameButHeaders(mem: seq<byte>, mem': seq<byte>, bs: seq<Block>) {
    |mem'| == |mem| && forall q :: 0 <= q < |mem| && !InHeaders(bs, q) ==> mem'[q] == mem[q]
  }

  // ---------------------------------------------------------------- one header

  lemma {:induction false} HeaderKept(mem: seq<byte>, mem': seq<byte>, lo: int, hi: int, p: nat)
    requires SameExcept(mem, mem', lo, hi) && p + HEADER <= |mem| && (hi <= p || p + HEADER <= lo)
    ensures ReadHeader(mem', p) == ReadHeader(mem, p)
  {
    WordKept(mem, mem', lo, hi, p);
    WordKept(mem, mem', lo, hi, p + 4);
    WordKept(mem, mem', lo, hi, p + 8);
  }

  lemma {:induction false} SameHeaderBytes(mem: seq<byte>, mem': seq<byte>, p: nat)
    requires |mem'| == |mem| && p + HEADER <= |mem|
    ensures (forall q :: p <= q < p + HEADER ==> mem'[q] == mem[q]) <==> ReadHeader(mem', p) == ReadHeader(mem, p)
  {
    if ReadHeader(mem', p) == ReadHeader(mem, p) {
      hide U32;
      U32Injective(mem', mem, p);
      U32Injective(mem', mem, p + 4);
      U32Injective(mem', mem, p + 8);
    }
  }

  /** All three words of a header. */
  function WriteHeader(mem: seq<byte>, p: nat, h: Header): (r: seq<byte>)
    requires p + HEADER <= |mem| && h.size < TWO32 && h.next < TWO32 && h.free < TWO32
    ensures |r| == |mem|
  {
    PutU32(PutU32(PutU32(mem, p, h.size), p + 4, h.next), p + 8, h.free)
  }

  lemma {:induction false} HeaderWritten(mem: seq<byte>, p: nat, h: Header)
    requires p + HEADER <= |mem| && h.size < TWO32 && h.next < TWO32 && h.free < TWO32
    ensures ReadHeader(WriteHeader(mem, p, h), p) == h && SameExcept(mem, WriteHeader(mem, p, h), p, p + HEADER)
  {
    hide U32, SameExcept;
    var m1 := PutU32(mem, p, h.size);
    var m2 := PutU32(m1, p + 4, h.next);
    var m3 := PutU32(m2, p + 8, h.free);
    WordWritten(mem, p, h.size);
    WordWritten(m1, p + 4, h.next);
    WordWritten(m2, p + 8, h.free);
    WordKept(m1, m2, p + 4, p + 8, p);
    WordKept(m2, m3, p + 8, p + 12, p);
    WordKept(m2, m3, p + 8, p + 12, p + 4);
    SameTwice(mem, m1, m2, p, p + HEADER);
    SameTwice(mem, m2, m3, p, p + HEADER);
  }

  lemma {:induction false} SameTwice(a: seq<byte>, b: seq<byte>, c: seq<byte>, lo: int, hi: int)
    requires exists l, h :: lo <= l && h <= hi && SameExcept(a, b, l, h)
    requires exists l, h :: lo <= l && h <= hi && SameExcept(b, c, l, h)
    ensures SameExcept(a, c, lo, hi)
  {
  }

  // ---------------------------------------------------------------- lists of headers

  lemma {:induction false} LinkedConcat(mem: seq<byte>, x: seq<Block>, y: seq<Block>, after: nat)
    ensures Linked(mem, x + y, after) <==> Linked(mem, x, StartOf(y, after)) && Linked(mem, y, after)
  {
    if x == [] {
      assert x + y == y;
    } else {
      LinkedConcat(mem, x[1..], y, after);
      assert (x + y)[1..] == x[1..] + y;
    }
  }

  /** Bytes that belong to no header of the list do not matter. */
  lemma {:induction false} LinkedFrame(mem: seq<byte>, mem': seq<byte>, bs: seq<Block>, after: nat)
    requires Linked(mem, bs, after) && |mem'| == |mem|
    requires forall q :: 0 <= q < |mem| && InHeaders(bs, q) ==> mem'[q] == mem[q]
    ensures Linked(mem', bs, after)
  {
    if bs != [] {
      forall q | bs[0].addr <= q < bs[0].Payload()
        ensures mem'[q] == mem[q]
      {
        assert InHeaders(bs, q);
      }
      SameHeaderBytes(mem, mem', bs[0].addr);
      forall q | 0 <= q < |mem| && InHeaders(bs[1..], q)
        ensures mem'[q] == mem[q]
      {
        InHeadersTail(bs, q);
      }
      hide InHeaders, ReadHeader;
      LinkedFrame(mem, mem', bs[1..], after);
    }
  }

  lemma {:induction false} InHeadersTail(bs: seq<Block>, q: int)
    requires bs != []
    ensures InHeaders(bs, q) <==> bs[0].addr <= q < bs[0].Payload() || InHeaders(bs[1..], q)
  {
    var r := bs[1..];
    if InHeaders(r, q) {
      var i :| 0 <= i < |r| && r[i].addr <= q < r[i].Payload();
      assert bs[i + 1] == r[i];
    }
    if InHeaders(bs, q) && !(bs[0].addr <= q < bs[0].Payload()) {
      var i :| 0 <= i < |bs| && bs[i].addr <= q < bs[i].Payload();
      assert r[i - 1] == bs[i];
    }
  }

  lemma {:induction false} InHeadersConcat(x: seq<Block>, y: seq<Block>, q: int)
    ensures InHeaders(x + y, q) <==> InHeaders(x, q) || InHeaders(y, q)
  {
    if x == [] {
      assert x + y == y;
    } else {
      InHeadersTail(x, q);
      InHeadersTail(x + y, q);
      assert (x + y)[1..] == x[1..] + y;
      hide InHeaders;
      InHeadersConcat(x[1..], y, q);
    }
  }

  /** Headers of blocks that tile a range lie in that range. */
  lemma {:induction false} HeadersInside(bs: seq<Block>, a: nat, e: nat, q: int)
    requires Tiles(bs, a, e) && InHeaders(bs, q)
    ensures a <= q < e
  {
    TilesBounds(bs, a, e);
  }

  lemma {:induction false} LinkedAt(mem: seq<byte>, x: seq<Block>, b: Block, y: seq<Block>)
    requires Linked(mem, x + [b] + y, 0)
    ensures Linked(mem, x, b.addr) && Linked(mem, y, 0)
    ensures b.addr + HEADER <= |mem| && ReadHeader(mem, b.addr) == HeaderOf(b, StartOf(y, 0))
  {
    LinkedConcat(mem, x + [b], y, 0);
    LinkedConcat(mem, x, [b], StartOf(y, 0));
  }

  /** Replacing a block by blocks in its place, with bytes written only inside that place. */
  lemma {:induction false} Relink(mem: seq<byte>, mem': seq<byte>, x: seq<Block>, b: Block, mid: seq<Block>,
                                  y: seq<Block>, a: nat, e: nat)
    requires Tiles(x + [b] + y, a, e) && Linked(mem, x + [b] + y, 0)
    requires Tiles(mid, b.addr, b.End()) && mid != [] && Linked(mem', mid, StartOf(y, 0))
    requires SameExcept(mem, mem', b.addr, b.End())
    ensures Tiles(x + mid + y, a, e) && Linked(mem', x + mid + y, 0)
    ensures StartOf(x + mid + y, 0) == StartOf(x + [b] + y, 0)
  {
    Cut(x, b, y, a, e);
    LinkedAt(mem, x, b, y);
    forall q | 0 <= q < |mem| && (InHeaders(x, q) || InHeaders(y, q))
      ensures mem'[q] == mem[q]
    {
      if InHeaders(x, q) {
        HeadersInside(x, a, b.addr, q);
      } else {
        HeadersInside(y, b.End(), e, q);
      }
    }
    assert mid[0].addr == b.addr;
    hide Tiles, Linked, InHeaders;
    LinkedFrame(mem, mem', x, b.addr);
    LinkedFrame(mem, mem', y, 0);
    Paste(x, mid, y, a, b.addr, b.End(), e);
    LinkedConcat(mem', x, mid, StartOf(y, 0));
    LinkedConcat(mem', x + mid, y, 0);
  }

  // ---------------------------------------------------------------- writing a whole list

  /** Memory with the headers of a list written into it. */
  function Stamped(mem: seq<byte>, bs: seq<Block>, after: nat): (r: seq<byte>)
    ensures |r| == |mem|
  {
    if bs == [] then mem
    else
      var rest, h := Stamped(mem, bs[1..], after), HeaderOf(bs[0], StartOf(bs[1..], after));
      if bs[0].addr + HEADER <= |mem| && h.size < TWO32 && h.next < TWO32 then WriteHeader(rest, bs[0].addr, h) else rest
  }

  /** Stamping a list that fits changes only its headers, and links it. */
  lemma {:induction false} StampedLinks(mem: seq<byte>, bs: seq<Block>, after: nat, a: nat, e: nat)
    requires Tiles(bs, a, e) && e <= |mem| && e < TWO32 && after < TWO32
    ensures Linked(Stamped(mem, bs, after), bs, after) && SameButHeaders(mem, Stamped(mem, bs, after), bs)
  {
    if bs != [] {
      var rest, y := Stamped(mem, bs[1..], after), bs[1..];
      var h, m := HeaderOf(bs[0], StartOf(y, after)), Stamped(mem, bs, after);
      TilesBounds(bs, a, e);
      TilesBounds(y, bs[0].End(), e);
      StampedLinks(mem, y, after, bs[0].End(), e);
      HeaderWritten(rest, bs[0].addr, h);
      forall q | 0 <= q < |mem| && InHeaders(y, q)
        ensures m[q] == rest[q]
      {
        HeadersInside(y, bs[0].End(), e, q);
      }
      hide ReadHeader, WriteHeader, InHeaders;
      LinkedFrame(rest, m, y, after);
      forall q | 0 <= q < |mem| && !InHeaders(bs, q)
        ensures m[q] == mem[q]
      {
        InHeadersTail(bs, q);
      }
    }
  }

  /** Two memories that link the same list and agree outside its headers are equal. */
  lemma {:induction false} LinkedUnique(m1: seq<byte>, m2: seq<byte>, bs: seq<Block>, after: nat)
    requires Linked(m1, bs, after) && Linked(m2, bs, after) && |m1| == |m2|
    ensures forall q :: 0 <= q < |m1| && InHeaders(bs, q) ==> m1[q] == m2[q]
  {
    if bs != [] {
      SameHeaderBytes(m1, m2, bs[0].addr);
      LinkedUnique(m1, m2, bs[1..], after);
      hide ReadHeader, InHeaders;
      forall q | 0 <= q < |m1| && InHeaders(bs, q)
        ensures m1[q] == m2[q]
      {
        InHeadersTail(bs, q);
      }
    }
  }

  /** So code that ends with the list linked, having written only its headers, has stamped it. */
  lemma {:induction false} IsStamped(mem: seq<byte>, mem': seq<byte>, bs: seq<Block>, a: nat, e: nat)
    requires Tiles(bs, a, e) && e <= |mem| && e < TWO32
    requires Linked(mem', bs, 0) && SameButHeaders(mem, mem', bs)
    ensures mem' == Stamped(mem, bs, 0)
  {
    var m := Stamped(mem, bs, 0);
    StampedLinks(mem, bs, 0, a, e);
    LinkedUnique(mem', m, bs, 0);
    hide Stamped, Linked, InHeaders;
    assert forall q :: 0 <= q < |mem| ==> mem'[q] == m[q];
  }

  // ---------------------------------------------------------------- what kmalloc and kfree do to memory

  /** Memory after `kmalloc`: the headers of the new list. */
  function AllocMemory(mem: seq<byte>, bs: seq<Block>, request: nat): (r: seq<byte>)
    ensures |r| == |mem|
  {
    if Malloc(bs, request).ptr == 0 then mem else Stamped(mem, Malloc(bs, request).blocks, 0)
  }

  /** The payload that `kmalloc` returns lies in the heap, clear of every header. */
  lemma {:induction false} NewPayloadClear(bs: seq<Block>, request: nat, a: nat, e: nat, q: nat)
    requires Malloc(bs, request).ptr != 0 && Proper(Malloc(bs, request).blocks, a, e) && request <= 0xFFFF_FFF8
    requires Malloc(bs, request).ptr <= q < Malloc(bs, request).ptr + request
    ensures !InHeaders(Malloc(bs, request).blocks, q) && a <= q < e
  {
    var i, bs' := FirstFit(bs, Align8(request)), Malloc(bs, request).blocks;
    assert bs'[i] == Taken(bs[i], Align8(request))[0];
    TilesOrder(bs', a, e);
    TilesBounds(bs', a, e);
    hide Tiles, Malloc, Taken, FirstFit;
    assert bs'[i].Payload() <= q < bs'[i].End();
    forall k | 0 <= k < |bs'|
      ensures !(bs'[k].addr <= q < bs'[k].Payload())
    {
      assert k < i ==> bs'[k].End() <= bs'[i].addr;
      assert i < k ==> bs'[i].End() <= bs'[k].addr;
    }
  }

  /** Memory after `kfree`: the block is marked free, then come the headers of the coalesced list. */
  function FreeMemory(mem: seq<byte>, bs: seq<Block>, ptr: nat): (r: seq<byte>)
    ensures |r| == |mem|
  {
    if IndexOf(bs, ptr) == |bs| then mem else Stamped(MarkedFree(mem, ptr), Free(bs, ptr), 0)
  }

  /** `block->free = 1` */
  function MarkedFree(mem: seq<byte>, ptr: nat): (r: seq<byte>)
    ensures |r| == |mem|
  {
    if 4 <= ptr <= |mem| then PutU32(mem, ptr - 4, 1) else mem
  }
}
