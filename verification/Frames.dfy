/** The physical frame allocator of memory.c, proved against a sequence of used/free marks. */
module Frames {
  import opened Arithmetic
  import opened FrameBits

  const FRAME_SIZE: nat := 4096
  const INFO_SIZE: nat := 52

  // ---------------------------------------------------------------- runs of free frames

  predicate RunFree(m: seq<bool>, s: nat, n: nat)
    requires s + n <= |m|
  {
    forall i :: s <= i < s + n ==> !m[i]
  }

  /** `s` starts the lowest-addressed run of `n` free frames below `total`. */
  ghost predicate LowestRun(m: seq<bool>, total: nat, n: nat, s: nat)
    requires total <= |m|
  {
    s + n <= total && RunFree(m, s, n) && forall q :: 0 <= q < s ==> !RunFree(m, q, n)
  }

  ghost predicate NoRun(m: seq<bool>, total: nat, n: nat)
    requires total <= |m|
  {
    forall q :: 0 <= q && q + n <= total ==> !RunFree(m, q, n)
  }

  /** `best` is the length of a longest run of free frames below `total`. */
  ghost predicate LongestRun(m: seq<bool>, total: nat, best: nat)
    requires total <= |m|
  {
    && (exists s :: 0 <= s && s + best <= total && RunFree(m, s, best))
    && forall s, n :: 0 <= s && 0 <= n && s + n <= total && RunFree(m, s, n) ==> n <= best
  }

  function MarkRun(m: seq<bool>, s: nat, n: nat): (r: seq<bool>)
    ensures |r| == |m|
  {
    seq(|m|, f requires 0 <= f < |m| => m[f] || s <= f < s + n)
  }

  /** What an allocation of `n` frames does: it marks the lowest run and reports its address, or does
      nothing and reports 0. */
  ghost predicate Allocates(m: seq<bool>, m': seq<bool>, total: nat, n: nat, addr: nat)
    requires total <= |m|
  {
    || (NoRun(m, total, n) && m' == m && addr == 0)
    || exists s: nat :: LowestRun(m, total, n, s) && m' == MarkRun(m, s, n) && addr == s * FRAME_SIZE
  }

  /** The contract determines the outcome, so `frame_alloc` and `frame_alloc_contiguous(1)`, which both
      satisfy it for n = 1, behave identically. */
  lemma {:induction false} AllocationUnique(m: seq<bool>, m1: seq<bool>, m2: seq<bool>, total: nat, n: nat, a1: nat, a2: nat)
    requires total <= |m| && Allocates(m, m1, total, n, a1) && Allocates(m, m2, total, n, a2)
    ensures m1 == m2 && a1 == a2
  {
    if NoRun(m, total, n) {
      assert forall s :: !LowestRun(m, total, n, s);
    } else {
      var s: nat :| LowestRun(m, total, n, s) && m1 == MarkRun(m, s, n) && a1 == s * FRAME_SIZE;
      var q: nat :| LowestRun(m, total, n, q) && m2 == MarkRun(m, q, n) && a2 == q * FRAME_SIZE;
      assert !(s < q) && !(q < s);
    }
  }

  /** Address 0 is also the address of frame 0: a result of 0 means that there was no run, or that the run
      starts with frame 0. So while frame 0 is in use, 0 means failure. */
  lemma {:induction false} ZeroMeansFailure(m: seq<bool>, m': seq<bool>, total: nat, n: nat, addr: nat)
    requires total <= |m| && 0 < n && Allocates(m, m', total, n, addr)
    ensures addr == 0 <==> NoRun(m, total, n) || (n <= total && RunFree(m, 0, n))
    ensures |m| > 0 && m[0] ==> (addr == 0 <==> NoRun(m, total, n))
  {
    if NoRun(m, total, n) {
      assert forall s :: !LowestRun(m, total, n, s);
    } else {
      var s: nat :| LowestRun(m, total, n, s) && m' == MarkRun(m, s, n) && addr == s * FRAME_SIZE;
    }
  }

  /** The only frame is free, and allocating it reports 0 as well. */
  lemma {:induction false} ZeroIsFrameZero()
    ensures Allocates([false], [true], 1, 1, 0) && !NoRun([false], 1, 1)
  {
    assert RunFree([false], 0, 1);
    assert LowestRun([false], 1, 1, 0) && [true] == MarkRun([false], 0, 1);
  }

  lemma {:induction false} ShorterRun(m: seq<bool>, s: nat, n: nat, k: nat)
    requires s + n <= |m| && k <= n && RunFree(m, s, n)
    ensures RunFree(m, s, k)
  {
  }

  /** A contiguous allocation finds a run exactly when it asks for no more than the longest run. */
  lemma {:induction false} FitsIffLongEnough(m: seq<bool>, total: nat, n: nat, best: nat)
    requires total <= |m| && LongestRun(m, total, best)
    ensures NoRun(m, total, n) <==> n > best
  {
    var s :| 0 <= s && s + best <= total && RunFree(m, s, best);
    if n <= best {
      ShorterRun(m, s, best, n);
      assert RunFree(m, s, n);
    }
  }

  // ---------------------------------------------------------------- counting

  function Count(m: seq<bool>, n: nat): (c: nat)
    requires n <= |m|
    ensures c <= n
  {
    if n == 0 then 0 else Count(m, n - 1) + if m[n - 1] then 1 else 0
  }

  lemma {:induction false} CountUpdate(m: seq<bool>, f: nat, val: bool, n: nat)
    requires f < |m| && n <= |m|
    ensures Count(m[f := val], n) == Count(m, n) + if f < n && m[f] != val then (if val then 1 else -1) else 0
  {
    if n > 0 {
      CountUpdate(m, f, val, n - 1);
    }
  }

  lemma {:induction false} CountAll(m: seq<bool>, n: nat)
    requires n <= |m| && forall i :: 0 <= i < n ==> m[i]
    ensures Count(m, n) == n
  {
    if n > 0 {
      CountAll(m, n - 1);
    }
  }

  // ---------------------------------------------------------------- regions

  /** Frame number of `align_up(addr, FRAME_SIZE)`, which wraps within a frame of 4 GiB. */
  function FrameCeil(addr: nat): nat {
    (addr + FRAME_SIZE - 1) % TWO32 / FRAME_SIZE
  }

  /** Frame behind a region, whose end is a 32-bit sum. */
  function RegionEnd(start: nat, length: nat): nat {
    FrameCeil((start + length) % TWO32)
  }

  datatype MapEntry = MapEntry(addr: nat, len: nat, kind: nat)

  /** Usable memory that starts below 4 GiB. */
  predicate Usable(e: MapEntry) {
    e.kind == 1 && e.addr < TWO32
  }

  /** The length that `frame_allocator_init` passes on: the entry is cut at 4 GiB, then truncated. */
  function CutLength(e: MapEntry): nat
    requires Usable(e)
  {
    ((if e.addr + e.len > TWO32 then TWO32 else e.addr + e.len) - e.addr) % TWO32
  }

  /** The frame is freed for this entry. */
  predicate Covers(e: MapEntry, f: nat) {
    Usable(e) && FrameCeil(e.addr) <= f < RegionEnd(e.addr, CutLength(e))
  }

  predicate CoveredBy(es: seq<MapEntry>, f: nat) {
    exists i :: 0 <= i < |es| && Covers(es[i], f)
  }

  /** No frame past the last one is freed for this entry. */
  predicate InsideMap(e: MapEntry, total: nat) {
    Usable(e) ==> RegionEnd(e.addr, CutLength(e)) <= total
  }

  /** All bytes of the frame belong to the entry. */
  predicate Whole(e: MapEntry, f: nat) {
    e.addr <= f * FRAME_SIZE && (f + 1) * FRAME_SIZE <= e.addr + e.len
  }

  /** Rounding up: the first frame boundary that is not below, or 0 within a frame of 4 GiB. */
  lemma {:induction false} CeilBounds(addr: nat)
    requires addr < TWO32
    ensures addr <= 0xFFFF_F000 ==> FrameCeil(addr) * FRAME_SIZE - FRAME_SIZE < addr <= FrameCeil(addr) * FRAME_SIZE
    ensures addr > 0xFFFF_F000 ==> FrameCeil(addr) == 0
  {
  }

  lemma {:induction false} CeilOfZero()
    ensures FrameCeil(0) == 0
  {
  }

  /** What is freed: the frames that begin in an entry of kind 1, unless it ends within a frame of 4 GiB or
      above. */
  lemma {:induction false} CoversIs(e: MapEntry, f: nat)
    ensures Covers(e, f) <==>
      e.kind == 1 && e.addr + e.len <= 0xFFFF_F000 && e.addr <= f * 4096 && f * 4096 < e.addr + e.len
  {
    if Usable(e) {
      EntryEnd(e);
      CeilBounds(e.addr);
      CeilBounds(if e.addr + e.len < TWO32 then e.addr + e.len else 0);
      hide FrameCeil, CutLength;
    }
  }

  lemma {:induction false} EntryEnd(e: MapEntry)
    requires Usable(e)
    ensures RegionEnd(e.addr, CutLength(e)) == FrameCeil(if e.addr + e.len < TWO32 then e.addr + e.len else 0)
  {
    hide FrameCeil;
  }

  /** When a frame is freed for an entry, so is the one that holds its last byte. */
  lemma {:induction false} LastFrame(e: MapEntry, f: nat)
    requires Usable(e) && Covers(e, f)
    ensures var end := e.addr + e.len;
      && end > 0 && Covers(e, (end - 1) / FRAME_SIZE) && (Whole(e, (end - 1) / FRAME_SIZE) <==> end % FRAME_SIZE == 0)
      && (end % FRAME_SIZE == 0 ==> Whole(e, f))
  {
    hide Covers;
    CoversIs(e, f);
    CoversIs(e, (e.addr + e.len - 1) / FRAME_SIZE);
    LastBoundary(e.addr + e.len, f);
  }

  lemma {:induction false} LastBoundary(end: nat, f: nat)
    requires f * FRAME_SIZE < end
    ensures var last := (end - 1) / FRAME_SIZE;
      f <= last && last * FRAME_SIZE < end && ((last + 1) * FRAME_SIZE <= end <==> end % FRAME_SIZE == 0)
  {
  }

  /** What is freed for an entry belongs to it, frame by frame, exactly when it ends on a frame boundary or
      nothing is freed: a last frame that only begins in the entry is freed too. */
  lemma {:induction false} FreedIsUsable(e: MapEntry)
    requires Usable(e)
    ensures (forall f: nat :: Covers(e, f) ==> Whole(e, f)) <==>
      (e.addr + e.len) % FRAME_SIZE == 0 || forall f: nat :: !Covers(e, f)
  {
    forall f: nat | Covers(e, f)
      ensures var end := e.addr + e.len;
        && end > 0 && Covers(e, (end - 1) / FRAME_SIZE) && (Whole(e, (end - 1) / FRAME_SIZE) <==> end % FRAME_SIZE == 0)
        && (end % FRAME_SIZE == 0 ==> Whole(e, f))
    {
      LastFrame(e, f);
    }
    hide Covers, Whole, Usable;
  }

  /** Every frame of an entry is freed exactly when the entry ends below the last frame of 4 GiB or holds no
      whole frame. */
  lemma {:induction false} UsableIsFreed(e: MapEntry)
    requires Usable(e)
    ensures (forall f: nat :: Whole(e, f) ==> Covers(e, f)) <==>
      e.addr + e.len <= 0xFFFF_F000 || forall f: nat :: !Whole(e, f)
  {
    forall f: nat
      ensures Whole(e, f) ==> (Covers(e, f) <==> e.addr + e.len <= 0xFFFF_F000)
    {
      CoversIs(e, f);
    }
    hide Covers, Whole;
  }

  /** `reserve_region` rounds the start up too: it reserves all bytes of a region exactly when the region is empty
      or starts on a frame boundary and ends below the last frame of 4 GiB. */
  lemma {:induction false} ReservedHoldsBytes(start: nat, length: nat)
    requires start < TWO32 && length < TWO32
    ensures (forall x: nat :: start <= x < start + length ==> FrameCeil(start) <= x / 4096 < RegionEnd(start, length))
      <==> length == 0 || (start % 4096 == 0 && start + length <= 0xFFFF_F000)
  {
    var end := (start + length) % TWO32;
    CeilBounds(start);
    CeilBounds(end);
    hide FrameCeil;
    if length > 0 {
      if start % 4096 != 0 || start + length > 0xFFFF_F000 {
        assert FrameCeil(start) > start / 4096 || FrameCeil(end) <= start / 4096;
        assert start <= start < start + length;
      }
    }
  }

  /** The boot information in the middle of a page is not reserved at all. */
  lemma {:induction false} BootInfoNotReserved()
    ensures FrameCeil(0x9500) == RegionEnd(0x9500, INFO_SIZE) > 0x9500 / 4096
  {
  }

  /** Low memory of a PC up to the BIOS data at 0x9FC00: the frame that holds both is freed. */
  lemma {:induction false} LowMemoryOverruns()
    ensures var e := MapEntry(0, 0x9_FC00, 1); Covers(e, 0x9F) && !Whole(e, 0x9F)
  {
    CoversIs(MapEntry(0, 0x9_FC00, 1), 0x9F);
  }

  /** End of the kernel with the bitmap behind it, where `placement_alloc` leaves off. */
  function Placement(kernelEnd: nat, total: nat): nat {
    (FrameCeil(kernelEnd) * FRAME_SIZE + (total + 31) / 32 * 4) % TWO32
  }

  /** The first page boundary that is not below the end of the kernel: the bitmap starts here. */
  function BitmapStart(kernelEnd: nat): nat {
    kernelEnd + (4096 - kernelEnd % 4096) % 4096
  }

  /** Byte `x` belongs to the kernel, or to the 32-bit word of the bitmap that holds the bit of frame `f`. */
  predicate KernelByte(kernelEnd: nat, f: nat, x: nat) {
    x < kernelEnd || BitmapStart(kernelEnd) + 4 * (f / 32) <= x < BitmapStart(kernelEnd) + 4 * (f / 32) + 4
  }

  /** Kernel and bitmap end below the last page of 4 GiB. */
  predicate KernelFits(kernelEnd: nat, total: nat)
    requires total > 0
  {
    BitmapStart(kernelEnd) + 4 * ((total - 1) / 32) + 4 <= 0xFFFF_F000
  }

  lemma {:induction false} BitmapStartIs(kernelEnd: nat)
    ensures BitmapStart(kernelEnd) == (kernelEnd + 4095) / 4096 * 4096
    ensures kernelEnd <= BitmapStart(kernelEnd) < kernelEnd + 4096
  {
  }

  lemma {:induction false} BitmapWords(total: nat)
    requires 0 < total <= 0xF_FFFF
    ensures 4 * ((total - 1) / 32) + 4 == (total + 31) / 32 * 4 <= 0x2_0000
  {
  }

  lemma {:induction false} PlacementIs(kernelEnd: nat, total: nat)
    requires kernelEnd < TWO32 && 0 < total <= 0xF_FFFF
    ensures Placement(kernelEnd, total) == (BitmapStart(kernelEnd) + 4 * ((total - 1) / 32) + 4) % TWO32
  {
    BitmapStartIs(kernelEnd);
    BitmapWords(total);
    var words, start := (total + 31) / 32 * 4, BitmapStart(kernelEnd);
    hide BitmapStart;
    if kernelEnd <= 0xFFFF_F000 {
      assert FrameCeil(kernelEnd) * FRAME_SIZE == start;
    } else {
      assert FrameCeil(kernelEnd) == 0 && start == TWO32;
    }
  }

  /** The region reserved for the kernel when it would end at `end`, without the wrap. */
  lemma {:induction false} ReservedEnd(end: nat)
    requires end <= 0x1_0002_0000
    ensures end <= 0xFFFF_F000 ==> FrameCeil(end % TWO32) * 4096 >= end
    ensures end > 0xFFFF_F000 ==> FrameCeil(end % TWO32) <= 0x20
  {
    if end < TWO32 {
      CeilBounds(end);
    } else {
      CeilBounds(end - TWO32);
    }
  }

  /** No frame with a byte of the kernel or of the bitmap is free. */
  ghost predicate KernelUsed(m: seq<bool>, kernelEnd: nat, total: nat) {
    forall f: nat, x: nat :: f < total && KernelByte(kernelEnd, f, x) && x / 4096 < total && x / 4096 < |m| ==> m[x / 4096]
  }

  /** The frame behind the region that is reserved for the kernel. */
  lemma {:induction false} PlacementEnd(kernelEnd: nat, total: nat)
    requires kernelEnd < TWO32 && 0 < total <= 0xF_FFFF
    ensures var end, last := BitmapStart(kernelEnd) + 4 * ((total - 1) / 32) + 4, RegionEnd(0, Placement(kernelEnd, total));
      if end <= 0xFFFF_F000 then end <= last * 4096 else last <= 0x20
  {
    var end := BitmapStart(kernelEnd) + 4 * ((total - 1) / 32) + 4;
    PlacementIs(kernelEnd, total);
    BitmapWords(total);
    BitmapStartIs(kernelEnd);
    hide Placement, BitmapStart, RegionEnd, FrameCeil;
    assert end <= 0x1_0002_0000;
    EndOfReserved(Placement(kernelEnd, total), end);
  }

  lemma {:induction false} EndOfReserved(placement: nat, end: nat)
    requires end <= 0x1_0002_0000 && placement == end % TWO32
    ensures var last := RegionEnd(0, placement); if end <= 0xFFFF_F000 then end <= last * 4096 else last <= 0x20
  {
    hide FrameCeil;
    ReservedEnd(end);
    assert (0 + placement) % TWO32 == placement;
  }

  /** The region that is reserved for the kernel reaches over all of the kernel and the bitmap exactly when
      they end below the last page of 4 GiB. */
  lemma {:induction false} PlacementCovers(kernelEnd: nat, total: nat)
    requires kernelEnd < TWO32 && 0 < total <= 0xF_FFFF
    ensures (forall f: nat, x: nat :: f < total && KernelByte(kernelEnd, f, x) ==> x / 4096 < RegionEnd(0, Placement(kernelEnd, total)))
      <==> KernelFits(kernelEnd, total)
  {
    hide Placement, FrameCeil, RegionEnd, KernelByte, BitmapStart;
    PlacementEnd(kernelEnd, total);
    if KernelFits(kernelEnd, total) {
      forall f: nat, x: nat | f < total && KernelByte(kernelEnd, f, x)
        ensures x / 4096 < RegionEnd(0, Placement(kernelEnd, total))
      {
        KernelByteBelow(kernelEnd, total, f, x);
        FrameBelow(x, RegionEnd(0, Placement(kernelEnd, total)));
      }
    } else {
      var x := HighByte(kernelEnd, total);
      assert KernelByte(kernelEnd, 0, x);
    }
  }

  lemma {:induction false} FrameBelow(x: nat, last: nat)
    requires x < last * 4096
    ensures x / 4096 < last
  {
  }

  /** A byte of the kernel or its bitmap near 4 GiB. */
  lemma {:induction false} HighByte(kernelEnd: nat, total: nat) returns (x: nat)
    requires kernelEnd < TWO32 && 0 < total <= 0xF_FFFF && !KernelFits(kernelEnd, total)
    ensures KernelByte(kernelEnd, 0, x) && x / 4096 > 0x20
  {
    BitmapWords(total);
    BitmapStartIs(kernelEnd);
    hide BitmapStart;
    x := if kernelEnd <= 0xFFFF_F000 then BitmapStart(kernelEnd) else kernelEnd - 1;
    KernelByteHigh(kernelEnd, x);
  }

  lemma {:induction false} KernelByteBelow(kernelEnd: nat, total: nat, f: nat, x: nat)
    requires f < total && KernelByte(kernelEnd, f, x)
    ensures x < BitmapStart(kernelEnd) + 4 * ((total - 1) / 32) + 4
  {
    BitmapStartIs(kernelEnd);
    hide BitmapStart;
  }

  lemma {:induction false} KernelByteHigh(kernelEnd: nat, x: nat)
    requires x >= 0xFFFD_0000 && (x == BitmapStart(kernelEnd) || x == kernelEnd - 1)
    ensures KernelByte(kernelEnd, 0, x) && x / 4096 > 0x20
  {
    hide BitmapStart;
  }

  /** Highest end address of the memory map. */
  function MaxEnd(es: seq<MapEntry>): (r: nat)
    ensures forall i :: 0 <= i < |es| ==> es[i].addr + es[i].len <= r
  {
    if es == [] then 0
    else
      var rest := MaxEnd(es[..|es| - 1]);
      var end := es[|es| - 1].addr + es[|es| - 1].len;
      assert forall i :: 0 <= i < |es| - 1 ==> es[..|es| - 1][i] == es[i];
      if end > rest then end else rest
  }

  function Clamp(v: nat): nat {
    if v > 0xFFFF_FFFF then 0xFFFF_FFFF else v
  }

  /** The number of frames: the whole frames below the highest end in the memory map, and never more than
      0xFFFFF. */
  lemma {:induction false} TotalIs(es: seq<MapEntry>)
    ensures var total := Clamp(MaxEnd(es)) / FRAME_SIZE;
      && total <= 0xF_FFFF
      && (forall i :: 0 <= i < |es| ==> es[i].addr + es[i].len < 4096 * (total + 1) || total == 0xF_FFFF)
      && (total > 0 ==> exists i :: 0 <= i < |es| && es[i].addr + es[i].len >= 4096 * total)
  {
    MaxEndReached(es);
    hide MaxEnd;
    var total := Clamp(MaxEnd(es)) / FRAME_SIZE;
    if total > 0 {
      var i :| 0 <= i < |es| && es[i].addr + es[i].len == MaxEnd(es);
      assert es[i].addr + es[i].len >= 4096 * total;
    }
  }

  lemma {:induction false} MaxEndReached(es: seq<MapEntry>)
    ensures MaxEnd(es) == 0 || exists i :: 0 <= i < |es| && es[i].addr + es[i].len == MaxEnd(es)
    ensures forall i :: 0 <= i < |es| ==> es[i].addr + es[i].len <= MaxEnd(es)
  {
    if es != [] {
      var n := |es| - 1;
      MaxEndReached(es[..n]);
      if MaxEnd(es[..n]) != 0 {
        var i :| 0 <= i < n && es[..n][i].addr + es[..n][i].len == MaxEnd(es[..n]);
        assert es[i] == es[..n][i];
      }
      assert es[n].addr + es[n].len <= MaxEnd(es);
    }
  }

  // ---------------------------------------------------------------- the allocator

  /** The test `frame_bitmap[i] & (1U << b)` of `frame_alloc`. */
  method TestMask(w: bv32, b: nat) returns (taken: bool)
    requires b < 32
    ensures taken == Bit(w, b)
  {
    hide WordBit, MaskBit, Index;
    MaskTest(w, Index(b));
    taken := MaskBit(w, Index(b));
  }

  /** The first loop of `frame_allocator_init`. */
  method FindMaxEnd(entries: seq<MapEntry>) returns (maxAddr: nat)
    ensures maxAddr == MaxEnd(entries)
  {
    maxAddr := 0;
    var i := 0;
    while i < |entries|
      invariant i <= |entries| && maxAddr == MaxEnd(entries[..i])
    {
      assert entries[..i + 1][..i] == entries[..i];
      var end := entries[i].addr + entries[i].len;
      if end > maxAddr { maxAddr := end; }
      i := i + 1;
    }
    assert entries[..i] == entries;
  }

  lemma {:induction false} WordsCover(total: nat)
    ensures total <= 32 * ((total + 31) / 32)
  {
  }

  lemma {:induction false} ClampBounds(v: nat)
    ensures Clamp(v) / FRAME_SIZE <= 0xF_FFFF
  {
  }

  class FrameAllocator {
    var bitmap: array?<bv32>
    var totalFrames: nat
    var usedFrames: nat

    ghost function Marks(): (m: seq<bool>)
      reads this, bitmap
      requires bitmap != null
    {
      Unpack(bitmap[..])
    }

    /** The bitmap covers all frames, the bits past the last frame are set, and the counter equals the
        number of used frames. */
    ghost predicate Valid()
      reads this, bitmap
    {
      bitmap != null ==>
        && totalFrames <= 0xF_FFFF && bitmap.Length == (totalFrames + 31) / 32 && totalFrames <= 32 * bitmap.Length
        && (forall f :: totalFrames <= f < |Marks()| ==> Marks()[f])
        && usedFrames == Count(Marks(), totalFrames)
    }

    constructor ()
      ensures Valid() && bitmap == null
    {
      bitmap, totalFrames, usedFrames := null, 0, 0;
    }

    /** `test_frame` */
    method TestFrame(frame: nat) returns (used: bool)
      requires bitmap != null && frame < 32 * bitmap.Length
      ensures used == Marks()[frame]
    {
      used := Bit(bitmap[frame / 32], frame % 32);
    }

    /** `set_frame` */
    method SetFrame(frame: nat)
      requires bitmap != null && Valid() && frame < 32 * bitmap.Length
      modifies this`usedFrames, bitmap
      ensures Valid() && Marks() == old(Marks())[frame := true]
    {
      hide Unpack, Bit, With;
      var used := TestFrame(frame);
      if !used {
        UnpackSet(bitmap[..], frame);
        CountUpdate(Marks(), frame, true, totalFrames);
        ghost var words := bitmap[..];
        bitmap[frame / 32] := With(bitmap[frame / 32], frame % 32);
        assert bitmap[..] == words[frame / 32 := With(words[frame / 32], frame % 32)];
        usedFrames := usedFrames + 1;
      } else {
        assert Marks()[frame := true] == Marks();
      }
    }

    /** `clear_frame` */
    method ClearFrame(frame: nat)
      requires bitmap != null && Valid() && frame < totalFrames
      modifies this`usedFrames, bitmap
      ensures Valid() && Marks() == old(Marks())[frame := false]
    {
      hide Unpack, Bit, Without;
      var used := TestFrame(frame);
      if used {
        UnpackClear(bitmap[..], frame);
        CountUpdate(Marks(), frame, false, totalFrames);
        ghost var words := bitmap[..];
        bitmap[frame / 32] := Without(bitmap[frame / 32], frame % 32);
        assert bitmap[..] == words[frame / 32 := Without(words[frame / 32], frame % 32)];
        usedFrames := usedFrames - 1;
      } else {
        assert Marks()[frame := false] == Marks();
      }
    }

    /** `frame_free` */
    method FrameFree(addr: nat)
      requires Valid() && addr < TWO32
      modifies this`usedFrames, bitmap
      ensures Valid()
      ensures bitmap != null ==>
        Marks() == if addr / FRAME_SIZE < totalFrames then old(Marks())[addr / FRAME_SIZE := false] else old(Marks())
    {
      if bitmap == null {
        return;
      }
      var frame := addr / FRAME_SIZE;
      if frame < totalFrames {
        ClearFrame(frame);
      }
    }

    /** The word-skipping search of `frame_alloc`. */
    method FindFree() returns (found: bool, frame: nat)
      requires bitmap != null && Valid()
      ensures found ==> LowestRun(Marks(), totalFrames, 1, frame)
      ensures !found ==> NoRun(Marks(), totalFrames, 1)
    {
      hide Unpack, Bit, Count, WordBit, Index, RunFree;
      ghost var m := Marks();
      var i := 0;
      while i < bitmap.Length
        invariant i <= bitmap.Length
        invariant forall f :: 0 <= f < 32 * i ==> m[f]
      {
        WholeWord(bitmap[..], i);
        if bitmap[i] != 0xFFFF_FFFF {
          var b := 0;
          while b < 32
            invariant b <= 32
            invariant forall f :: 0 <= f < 32 * i + b ==> m[f]
          {
            frame := i * 32 + b;
            BitOfFrame(bitmap[..], i, b);
            var taken := TestMask(bitmap[i], b);
            if !taken {
              LowestFree(m, totalFrames, frame);
              return true, frame;
            }
            b := b + 1;
          }
          assert false;
        }
        i := i + 1;
      }
      AllUsed(m, totalFrames);
      return false, 0;
    }

    /** `frame_alloc`: the lowest free frame. */
    method FrameAlloc() returns (addr: nat)
      requires Valid()
      modifies this`usedFrames, bitmap
      ensures Valid()
      ensures bitmap == null ==> addr == 0
      ensures bitmap != null ==> Allocates(old(Marks()), Marks(), totalFrames, 1, addr)
    {
      hide Unpack, NoRun, RunFree;
      if bitmap == null {
        return 0;
      }
      var found, frame := FindFree();
      if !found {
        return 0;
      }
      MarkOne(Marks(), frame);
      SetFrame(frame);
      return frame * FRAME_SIZE;
    }

    /** The search of `frame_alloc_contiguous`: skipping to the frame behind an obstacle loses no run. */
    method FindRun(count: nat) returns (found: bool, start: nat)
      requires bitmap != null && Valid() && 0 < count
      ensures found ==> LowestRun(Marks(), totalFrames, count, start)
      ensures !found ==> NoRun(Marks(), totalFrames, count)
    {
      assert totalFrames <= 32 * bitmap.Length;
      hide Unpack, Count, Valid;
      ghost var m := Marks();
      start := 0;
      while start + count <= totalFrames
        invariant forall q :: 0 <= q < start && q + count <= totalFrames ==> !RunFree(m, q, count)
      {
        var ok := true;
        var i := 0;
        while i < count
          invariant i <= count && RunFree(m, start, i)
        {
          var used := TestFrame(start + i);
          if used {
            Obstacle(m, totalFrames, start, i, count);
            ok := false;
            start := start + i;
            break;
          }
          i := i + 1;
        }
        if ok {
          return true, start;
        }
        start := start + 1;
      }
      return false, 0;
    }

    /** `frame_alloc_contiguous` */
    method FrameAllocContiguous(count: nat) returns (addr: nat)
      requires Valid()
      modifies this`usedFrames, bitmap
      ensures Valid()
      ensures bitmap == null || count == 0 ==> addr == 0
      ensures bitmap != null && count == 0 ==> Marks() == old(Marks())
      ensures bitmap != null && count > 0 ==> Allocates(old(Marks()), Marks(), totalFrames, count, addr)
    {
      hide Unpack, RunFree;
      if bitmap == null || count == 0 {
        return 0;
      }
      if count > totalFrames {
        assert NoRun(Marks(), totalFrames, count);
        return 0;
      }
      var found, start := FindRun(count);
      if !found {
        return 0;
      }
      MarkFrames(start, count);
      return start * FRAME_SIZE;
    }

    /** The marking loop of `frame_alloc_contiguous`. */
    method MarkFrames(start: nat, count: nat)
      requires bitmap != null && Valid() && start + count <= totalFrames
      modifies this`usedFrames, bitmap
      ensures Valid() && Marks() == MarkRun(old(Marks()), start, count)
    {
      ghost var m := Marks();
      var i := 0;
      MarkRunStep(m, start, 0);
      while i < count
        invariant i <= count && Valid() && Marks() == MarkRun(m, start, i)
      {
        MarkRunStep(m, start, i);
        SetFrame(start + i);
        i := i + 1;
      }
    }

    /** `frame_largest_free_run` */
    method LargestFreeRun() returns (best: nat)
      requires Valid()
      ensures bitmap == null ==> best == 0
      ensures bitmap != null ==> LongestRun(Marks(), totalFrames, best)
    {
      if bitmap == null {
        return 0;
      }
      var current;
      current, best := ScanRuns();
      hide Unpack, Count, RunState, LongestRun;
      RunStateEnd(Marks(), totalFrames, current, best);
    }

    /** Its loop: the run that ends here, and the longest one so far. */
    method ScanRuns() returns (current: nat, best: nat)
      requires bitmap != null && totalFrames <= 32 * bitmap.Length
      ensures RunState(Marks(), totalFrames, current, best)
    {
      hide Unpack, RunState, Bit;
      current, best := 0, 0;
      RunStateStart(Marks());
      var i := 0;
      while i < totalFrames
        invariant i <= totalFrames && RunState(Marks(), i, current, best)
      {
        var used := TestFrame(i);
        RunStateStep(Marks(), i, current, best);
        if !used {
          current := current + 1;
          if current > best { best := current; }
        } else {
          current := 0;
        }
        i := i + 1;
      }
    }

    /** `free_region`: both ends are rounded up to a frame boundary. */
    method FreeRegion(start: nat, length: nat)
      requires bitmap != null && Valid() && RegionEnd(start, length) <= totalFrames
      modifies this`usedFrames, bitmap
      ensures Valid() && |Marks()| == |old(Marks())|
      ensures forall f :: 0 <= f < |Marks()| ==>
        Marks()[f] == (old(Marks())[f] && !(FrameCeil(start) <= f < RegionEnd(start, length)))
    {
      ghost var m := Marks();
      var addr, e := FrameCeil(start) * FRAME_SIZE, RegionEnd(start, length) * FRAME_SIZE;
      ghost var k, first, last := FrameCeil(start), FrameCeil(start), RegionEnd(start, length);
      assert last <= |m|;
      hide Unpack, Count, Valid, FrameCeil, RegionEnd;
      while addr < e
        invariant first <= k && (k <= last || k == first) && addr == k * FRAME_SIZE && Valid() && |Marks()| == |m|
        invariant forall f :: 0 <= f < |m| ==> Marks()[f] == (m[f] && !(first <= f < k))
        decreases last - k
      {
        FrameAt(k);
        ClearFrame(addr / FRAME_SIZE);
        addr := addr + FRAME_SIZE;
        k := k + 1;
      }
    }

    /** `reserve_region`: both ends are rounded up to a frame boundary. */
    method ReserveRegion(start: nat, length: nat)
      requires bitmap != null && Valid() && RegionEnd(start, length) <= totalFrames
      modifies this`usedFrames, bitmap
      ensures Valid() && |Marks()| == |old(Marks())|
      ensures forall f :: 0 <= f < |Marks()| ==>
        Marks()[f] == (old(Marks())[f] || FrameCeil(start) <= f < RegionEnd(start, length))
    {
      ghost var m := Marks();
      var addr, e := FrameCeil(start) * FRAME_SIZE, RegionEnd(start, length) * FRAME_SIZE;
      ghost var k, first, last := FrameCeil(start), FrameCeil(start), RegionEnd(start, length);
      assert last <= |m|;
      hide Unpack, Count, Valid, FrameCeil, RegionEnd;
      while addr < e
        invariant first <= k && (k <= last || k == first) && addr == k * FRAME_SIZE && Valid() && |Marks()| == |m|
        invariant forall f :: 0 <= f < |m| ==> Marks()[f] == (m[f] || first <= f < k)
        decreases last - k
      {
        FrameAt(k);
        SetFrame(addr / FRAME_SIZE);
        addr := addr + FRAME_SIZE;
        k := k + 1;
      }
    }

    /** `frame_allocator_init` for a present memory map: afterwards a frame is free exactly when a
        usable entry covers it and none of the three reserved regions does. */
    method Init(entries: seq<MapEntry>, kernelEnd: nat, mapAddr: nat, mapLength: nat, infoAddr: nat)
      requires bitmap == null && Valid()
      requires var total := Clamp(MaxEnd(entries)) / FRAME_SIZE;
        total > 0 ==>
          && (forall i :: 0 <= i < |entries| ==> InsideMap(entries[i], total))
          && RegionEnd(0, Placement(kernelEnd, total)) <= total
          && RegionEnd(mapAddr, mapLength) <= total && RegionEnd(infoAddr, INFO_SIZE) <= total
      modifies this
      ensures Valid() && totalFrames == Clamp(MaxEnd(entries)) / FRAME_SIZE
      ensures totalFrames == 0 ==> bitmap == null
      ensures totalFrames > 0 ==>
        && bitmap != null && fresh(bitmap)
        && forall f :: 0 <= f < totalFrames ==>
             (!Marks()[f] <==>
                && CoveredBy(entries, f)
                && !(0 <= f < RegionEnd(0, Placement(kernelEnd, totalFrames)))
                && !(FrameCeil(mapAddr) <= f < RegionEnd(mapAddr, mapLength))
                && !(FrameCeil(infoAddr) <= f < RegionEnd(infoAddr, 52)))
      ensures totalFrames > 0 && kernelEnd < TWO32 && KernelFits(kernelEnd, totalFrames) ==>
        bitmap != null && KernelUsed(Marks(), kernelEnd, totalFrames)
    {
      hide Unpack, Count, CoveredBy, FrameCeil, RegionEnd, InsideMap, MaxEnd, Clamp;
      var maxAddr := FindMaxEnd(entries);
      totalFrames := Clamp(maxAddr) / FRAME_SIZE;
      if totalFrames == 0 {
        return;
      }
      var words := (totalFrames + 31) / 32;
      var placement := Placement(kernelEnd, totalFrames);
      bitmap := new bv32[words](_ => 0xFFFF_FFFF);
      usedFrames := totalFrames;
      AllMarked(bitmap[..], totalFrames);
      ClampBounds(maxAddr);
      WordsCover(totalFrames);
      assert Valid();
      hide Valid;
      FreeUsable(entries);
      ReserveKernel(placement, mapAddr, mapLength, infoAddr);
      if kernelEnd < TWO32 && KernelFits(kernelEnd, totalFrames) {
        PlacementCovers(kernelEnd, totalFrames);
      }
    }

    /** The end of `frame_allocator_init`: the kernel with its bitmap, the memory map and the boot
        information are taken out again. */
    method ReserveKernel(placement: nat, mapAddr: nat, mapLength: nat, infoAddr: nat)
      requires bitmap != null && Valid() && RegionEnd(0, placement) <= totalFrames
      requires RegionEnd(mapAddr, mapLength) <= totalFrames && RegionEnd(infoAddr, INFO_SIZE) <= totalFrames
      modifies this`usedFrames, bitmap
      ensures Valid() && |Marks()| == |old(Marks())|
      ensures forall f :: 0 <= f < |Marks()| ==>
        (Marks()[f] <==>
           || old(Marks())[f]
           || 0 <= f < RegionEnd(0, placement)
           || FrameCeil(mapAddr) <= f < RegionEnd(mapAddr, mapLength)
           || FrameCeil(infoAddr) <= f < RegionEnd(infoAddr, INFO_SIZE))
    {
      hide Unpack, Count, FrameCeil, RegionEnd, Valid;
      CeilOfZero();
      ReserveRegion(0, placement);
      ReserveRegion(mapAddr, mapLength);
      ReserveRegion(infoAddr, INFO_SIZE);
    }

    /** The second loop of `frame_allocator_init`. */
    method FreeUsable(entries: seq<MapEntry>)
      requires bitmap != null && Valid()
      requires forall i :: 0 <= i < |entries| ==> InsideMap(entries[i], totalFrames)
      requires forall f :: 0 <= f < |Marks()| ==> Marks()[f]
      modifies this`usedFrames, bitmap
      ensures Valid() && |Marks()| == |old(Marks())|
      ensures forall f :: 0 <= f < |Marks()| ==> (Marks()[f] <==> !CoveredBy(entries, f))
    {
      hide Unpack, Count, CoveredBy, Covers, FreeExactly, InsideMap;
      ghost var n := |Marks()|;
      var i := 0;
      NothingCovered(Marks(), entries);
      while i < |entries|
        invariant i <= |entries| && Valid() && |Marks()| == n && FreeExactly(Marks(), entries[..i])
      {
        ghost var m := Marks();
        FreeEntry(entries[i]);
        FreedExactly(m, Marks(), entries, i);
        i := i + 1;
      }
      assert entries[..i] == entries;
      FreeExactlyAll(Marks(), entries);
    }

    /** One entry of the memory map. */
    method FreeEntry(e: MapEntry)
      requires bitmap != null && Valid() && InsideMap(e, totalFrames)
      modifies this`usedFrames, bitmap
      ensures Valid() && |Marks()| == |old(Marks())|
      ensures forall f :: 0 <= f < |Marks()| ==> Marks()[f] == (old(Marks())[f] && !Covers(e, f))
    {
      hide Unpack, Count, Valid, FrameCeil, RegionEnd;
      if e.kind == 1 && e.addr < TWO32 {
        var end := if e.addr + e.len > TWO32 then TWO32 else e.addr + e.len;
        FreeRegion(e.addr, (end - e.addr) % TWO32);
      }
    }
  }

  /** A frame is free exactly when one of these entries covers it. */
  ghost predicate FreeExactly(m: seq<bool>, es: seq<MapEntry>) {
    forall f :: 0 <= f < |m| ==> (m[f] <==> !CoveredBy(es, f))
  }

  lemma {:induction false} NothingCovered(m: seq<bool>, es: seq<MapEntry>)
    requires forall f :: 0 <= f < |m| ==> m[f]
    ensures FreeExactly(m, es[..0])
  {
  }

  lemma {:induction false} FreeExactlyAll(m: seq<bool>, es: seq<MapEntry>)
    requires FreeExactly(m, es)
    ensures forall f :: 0 <= f < |m| ==> (m[f] <==> !CoveredBy(es, f))
  {
  }

  /** One more entry. */
  lemma {:induction false} FreedExactly(m: seq<bool>, m': seq<bool>, es: seq<MapEntry>, i: nat)
    requires i < |es| && FreeExactly(m, es[..i]) && |m'| == |m|
    requires forall f :: 0 <= f < |m| ==> m'[f] == (m[f] && !Covers(es[i], f))
    ensures FreeExactly(m', es[..i + 1])
  {
    CoveredByStep(es, i);
    hide CoveredBy, Covers;
  }

  lemma {:induction false} CoveredByStep(es: seq<MapEntry>, i: nat)
    requires i < |es|
    ensures forall f :: CoveredBy(es[..i + 1], f) <==> CoveredBy(es[..i], f) || Covers(es[i], f)
  {
    forall f
      ensures CoveredBy(es[..i + 1], f) <==> CoveredBy(es[..i], f) || Covers(es[i], f)
    {
      if Covers(es[i], f) {
        assert es[..i + 1][i] == es[i];
      }
      if CoveredBy(es[..i], f) {
        var k :| 0 <= k < i && Covers(es[..i][k], f);
        assert es[..i + 1][k] == es[..i][k];
      }
    }
  }

  lemma {:induction false} AllMarked(words: seq<bv32>, total: nat)
    requires total <= 32 * |words| && forall i :: 0 <= i < |words| ==> words[i] == 0xFFFF_FFFF
    ensures forall f :: 0 <= f < 32 * |words| ==> Unpack(words)[f]
    ensures Count(Unpack(words), total) == total
  {
    forall f | 0 <= f < 32 * |words|
      ensures Unpack(words)[f]
    {
      FullWord(words[f / 32]);
    }
    CountAll(Unpack(words), total);
  }

  lemma {:induction false} BitOfFrame(words: seq<bv32>, i: nat, b: nat)
    requires i < |words| && b < 32
    ensures Unpack(words)[i * 32 + b] == Bit(words[i], b)
  {
    hide Bit;
    assert (i * 32 + b) / 32 == i && (i * 32 + b) % 32 == b;
  }

  lemma {:induction false} WholeWord(words: seq<bv32>, i: nat)
    requires i < |words|
    ensures words[i] == 0xFFFF_FFFF <==> forall f :: 32 * i <= f < 32 * i + 32 ==> Unpack(words)[f]
  {
    FullWord(words[i]);
    assert forall b :: 0 <= b < 32 ==> Unpack(words)[32 * i + b] == Bit(words[i], b) by {
      forall b | 0 <= b < 32
        ensures Unpack(words)[32 * i + b] == Bit(words[i], b)
      {
        BitOfFrame(words, i, b);
      }
    }
  }

  /** The first clear mark is a frame, because the marks past the last frame are set. */
  lemma {:induction false} LowestFree(m: seq<bool>, total: nat, f: nat)
    requires total <= |m| && f < |m| && !m[f] && (forall g :: 0 <= g < f ==> m[g])
    requires forall g :: total <= g < |m| ==> m[g]
    ensures LowestRun(m, total, 1, f)
  {
    forall q | 0 <= q < f
      ensures !RunFree(m, q, 1)
    {
      assert m[q];
    }
  }

  lemma {:induction false} AllUsed(m: seq<bool>, total: nat)
    requires total <= |m| && forall f :: 0 <= f < total ==> m[f]
    ensures NoRun(m, total, 1)
  {
    forall q | 0 <= q && q + 1 <= total
      ensures !RunFree(m, q, 1)
    {
      assert m[q];
    }
  }

  lemma {:induction false} MarkRunStep(m: seq<bool>, s: nat, i: nat)
    requires s + i <= |m|
    ensures MarkRun(m, s, 0) == m
    ensures s + i < |m| ==> MarkRun(m, s, i)[s + i := true] == MarkRun(m, s, i + 1)
  {
  }

  /** No run of free frames that ends by frame `i` is longer than `best`. */
  ghost predicate NoLonger(m: seq<bool>, i: nat, best: nat)
    requires i <= |m|
  {
    forall s, n :: 0 <= s && 0 <= n && s + n <= i && RunFree(m, s, n) ==> n <= best
  }

  /** The state of the scan of `frame_largest_free_run` in front of frame `i`. */
  ghost predicate RunState(m: seq<bool>, i: nat, current: nat, best: nat)
    requires i <= |m|
  {
    && current <= i && current <= best
    && RunFree(m, i - current, current) && (i - current > 0 ==> m[i - current - 1])
    && (exists at :: 0 <= at && at + best <= i && RunFree(m, at, best))
    && NoLonger(m, i, best)
  }

  lemma {:induction false} RunStateStart(m: seq<bool>)
    ensures RunState(m, 0, 0, 0)
  {
    assert RunFree(m, 0, 0);
  }

  lemma {:induction false} RunStateStep(m: seq<bool>, i: nat, current: nat, best: nat)
    requires i < |m| && RunState(m, i, current, best)
    ensures m[i] ==> RunState(m, i + 1, 0, best)
    ensures !m[i] ==> RunState(m, i + 1, current + 1, if current + 1 > best then current + 1 else best)
  {
    hide NoLonger;
    var at :| 0 <= at && at + best <= i && RunFree(m, at, best);
    if m[i] {
      LongestStays(m, i, best);
    } else {
      LongestGrows(m, i, best, current);
      assert RunFree(m, i + 1 - (current + 1), current + 1);
    }
  }

  lemma {:induction false} RunStateEnd(m: seq<bool>, total: nat, current: nat, best: nat)
    requires total <= |m| && RunState(m, total, current, best)
    ensures LongestRun(m, total, best)
  {
  }

  lemma {:induction false} FrameAt(k: nat)
    ensures k * FRAME_SIZE / FRAME_SIZE == k
  {
  }

  /** One more free frame behind a run of `current` of them. */
  lemma {:induction false} LongestGrows(m: seq<bool>, i: nat, best: nat, current: nat)
    requires i < |m| && NoLonger(m, i, best) && current <= i && (i - current > 0 ==> m[i - current - 1])
    ensures NoLonger(m, i + 1, if current + 1 > best then current + 1 else best)
  {
    forall s, n | 0 <= s && 0 <= n && s + n == i + 1 && RunFree(m, s, n)
      ensures n <= current + 1
    {
      assert !(s <= i - current - 1 < s + n);
    }
  }

  lemma {:induction false} LongestStays(m: seq<bool>, i: nat, best: nat)
    requires i < |m| && m[i] && NoLonger(m, i, best)
    ensures NoLonger(m, i + 1, best)
  {
    forall s, n | 0 <= s && 0 <= n && s + n == i + 1 && RunFree(m, s, n)
      ensures n <= best
    {
      assert !(s <= i < s + n);
    }
  }

  /** A used frame rules out every run that would contain it. */
  lemma {:induction false} Obstacle(m: seq<bool>, total: nat, start: nat, i: nat, count: nat)
    requires total <= |m| && i < count && start + count <= total && m[start + i]
    ensures forall q :: start <= q <= start + i && q + count <= total ==> !RunFree(m, q, count)
  {
    forall q | start <= q <= start + i && q + count <= total
      ensures !RunFree(m, q, count)
    {
      assert m[start + i] && q <= start + i < q + count;
    }
  }

  lemma {:induction false} MarkOne(m: seq<bool>, f: nat)
    requires f < |m|
    ensures m[f := true] == MarkRun(m, f, 1)
  {
    var r, q := MarkRun(m, f, 1), m[f := true];
    assert forall x :: 0 <= x < |m| ==> r[x] == q[x];
  }
}
