/** The proof steps of the driver: one lemma for each thing a loop or a phase of fat.c does to the
    abstract volume. */
module FatSteps {
  import opened Arithmetic
  import opened Sequences
  import opened Bytes
  import opened FatTable
  import opened FatVolume
  import opened FatDisk
  import opened FatTheorems

  const NONE: nat := 0xFFFF_FFFF

  // ---------------------------------------------------------------- geometry from the boot sector

  /** The fields `fat_init` takes from the BIOS parameter block. */
  function BootGeometry(s: seq<byte>): (g: Geometry)
    requires |s| == 512 && s[13] >= 1 && BootOverhead(s) <= BootTotal(s)
  {
    Geometry(U16(s, 14), s[16], BootFatSize(s), BootRootSectors(s), s[13], Quotient(BootTotal(s) - BootOverhead(s), s[13]))
  }

  /** The clusters are as many as fit behind the other areas. */
  lemma {:induction false} BootFits(s: seq<byte>)
    requires |s| == 512 && s[13] >= 1 && BootOverhead(s) <= BootTotal(s)
    ensures var g := BootGeometry(s);
      g.clusters * g.spc <= BootTotal(s) - BootOverhead(s) < (g.clusters + 1) * g.spc
  {
    hide BootTotal, BootOverhead, BootFatSize, BootRootSectors, U16;
    DivBounds(BootTotal(s) - BootOverhead(s), s[13]);
  }

  lemma {:induction false} BootOnDisk(d: seq<seq<byte>>)
    requires |d| > 0 && forall l :: 0 <= l < |d| ==> |d[l]| == 512
    requires d[0][13] >= 1 && BootOverhead(d[0]) <= BootTotal(d[0]) <= |d|
    ensures ValidGeometry(BootGeometry(d[0])) ==> OnDisk(BootGeometry(d[0]), d)
  {
    BootFits(d[0]);
    hide BootTotal, BootFatSize, BootRootSectors, U16;
  }

  function BootFatSize(s: seq<byte>): nat
    requires |s| == 512
  {
    if U16(s, 22) != 0 then U16(s, 22) else U32(s, 36)
  }

  function BootRootSectors(s: seq<byte>): nat
    requires |s| == 512
  {
    (U16(s, 17) * 32 + 511) / 512
  }

  function BootTotal(s: seq<byte>): nat
    requires |s| == 512
  {
    if U16(s, 19) != 0 then U16(s, 19) else U32(s, 32)
  }

  function BootOverhead(s: seq<byte>): nat
    requires |s| == 512
  {
    U16(s, 14) + Product(s[16], BootFatSize(s)) + BootRootSectors(s)
  }

  /** 0 stands for the unsupported FAT12. */
  function FatType(clusters: nat): nat {
    if clusters < 4085 then 0 else if clusters < 65525 then 16 else 32
  }

  // ---------------------------------------------------------------- directory scans

  lemma {:induction false} ListedNone(v: Volume)
    requires SlotsOk(v)
    ensures FirstOf(Listing(v, 0), CACHE_SIZE) == []
  {
  }

  lemma {:induction false} RootInside(g: Geometry, d: seq<seq<byte>>)
    requires OnDisk(g, d)
    ensures RootStart(g) + g.rootSectors <= |d| && SlotsOk(View(g, d)) && |View(g, d).slots| == 16 * g.rootSectors
  {
    RegionsApart(g);
    ShapeSlots(g, View(g, d));
  }

  lemma {:induction false} FirstOfAppend(s: seq<FileInfo>, x: FileInfo, n: nat)
    ensures FirstOf(s + [x], n) == if |FirstOf(s, n)| >= n then FirstOf(s, n) else FirstOf(s, n) + [x]
  {
  }

  /** Behind a zero byte entry nothing more of the sector is listed. */
  lemma {:induction false} ListingStops(v: Volume, k: nat, n: nat)
    requires SlotsOk(v)
    requires k < |v.slots| && v.slots[k][0] == 0 && k <= n <= k / 16 * 16 + 16 && n <= |v.slots|
    ensures Listing(v, n) == Listing(v, k)
    ensures forall j :: k <= j < n && j != k ==> !Reached(v, j)
    decreases n - k
  {
    if k < n {
      ListingStops(v, k, n - 1);
      if k < n - 1 {
        SectorOfSlot(k, n - 1);
        assert (n - 1) / 16 * 16 <= k < n - 1;
        assert !Reached(v, n - 1);
      }
    }
  }

  // ---------------------------------------------------------------- the driver

  /** The first `n` slots have been searched for the name without success, and the first vacant slot
      among them, if any, is remembered. */
  ghost predicate Scanned(g: Geometry, v: Volume, name: seq<byte>, n: nat, freeSector: nat, freeOffset: nat)
    requires Shape(g, v)
  {
    && (forall j :: 0 <= j < n ==> !Matches(v, name, j))
    && (freeSector == NONE ==> forall j :: 0 <= j < n ==> !Vacant(v, j))
    && (freeSector != NONE ==> exists k: nat :: FirstVacantAt(v, k) && InSector(g, k, freeSector, freeOffset))
  }

  /** No end marker among the first `e` entries of directory sector `i`. */
  ghost predicate NoEnd(g: Geometry, v: Volume, i: nat, e: nat)
    requires Shape(g, v) && 16 * i + e <= |v.slots|
  {
    forall j :: 16 * i <= j < 16 * i + e ==> v.slots[j][0] != 0
  }

  lemma {:induction false} NoEndYet(g: Geometry, v: Volume, i: nat)
    requires Shape(g, v) && i < g.rootSectors
    ensures |v.slots| == 16 * g.rootSectors && NoEnd(g, v, i, 0)
  {
  }

  /** Slot `e` of sector `i` lies in sector `i`. */
  lemma {:induction false} SlotInSector(i: nat, e: nat)
    requires e < 16
    ensures (16 * i + e) / 16 * 16 == 16 * i
  {
  }

  lemma {:induction false} NoEndStep(g: Geometry, v: Volume, i: nat, e: nat)
    requires Shape(g, v) && i < g.rootSectors && e < 16 && NoEnd(g, v, i, e)
    ensures SlotsOk(v)
    ensures |v.slots[16 * i + e]| == 32 && Reached(v, 16 * i + e)
    ensures v.slots[16 * i + e][0] != 0 ==> NoEnd(g, v, i, e + 1)
  {
  }

  lemma {:induction false} ScannedStep(g: Geometry, v: Volume, name: seq<byte>, i: nat, e: nat, ent: seq<byte>,
                                       freeSector: nat, freeOffset: nat)
    requires Shape(g, v) && i < g.rootSectors && e < 16 && ent == v.slots[16 * i + e] && |ent| == 32
    requires Scanned(g, v, name, 16 * i + e, freeSector, freeOffset) && NoEnd(g, v, i, e)
    requires RootStart(g) + i != NONE && |name| == 11
    ensures IsFree(ent) && freeSector == NONE ==> Scanned(g, v, name, 16 * i + e + 1, RootStart(g) + i, e * 32)
    ensures IsFree(ent) && freeSector != NONE ==> Scanned(g, v, name, 16 * i + e + 1, freeSector, freeOffset)
    ensures !IsFree(ent) && (ent[11] == 0x0F || ent[..11] != name) ==>
      Scanned(g, v, name, 16 * i + e + 1, freeSector, freeOffset)
    ensures !IsFree(ent) && ent[11] != 0x0F && ent[..11] == name ==> Find(v, name) == Existing(16 * i + e)
    ensures ent[0] != 0 ==> NoEnd(g, v, i, e + 1)
  {
    hide Find, FirstVacantAt, InSector, Scanned, NoEnd;
    var k := 16 * i + e;
    NoEndReached(g, v, i, e);
    SlotKind(v, name, k);
    hide Matches, Vacant, Reached;
    if IsFree(ent) && freeSector == NONE {
      ScannedVacant(g, v, name, i, e, freeOffset);
    } else if !IsFree(ent) && ent[11] != 0x0F && ent[..11] == name {
      ScannedMatch(g, v, name, k, freeSector, freeOffset);
    } else {
      ScannedMore(g, v, name, k, freeSector, freeOffset);
    }
    NoEndMore(g, v, i, e);
  }

  lemma {:induction false} NoEndReached(g: Geometry, v: Volume, i: nat, e: nat)
    requires Shape(g, v) && i < g.rootSectors && e < 16 && NoEnd(g, v, i, e)
    ensures Reached(v, 16 * i + e)
  {
  }

  lemma {:induction false} NoEndMore(g: Geometry, v: Volume, i: nat, e: nat)
    requires Shape(g, v) && i < g.rootSectors && e < 16 && NoEnd(g, v, i, e)
    ensures v.slots[16 * i + e][0] != 0 ==> NoEnd(g, v, i, e + 1)
  {
  }

  lemma {:induction false} InSectorOf(g: Geometry, i: nat, at: nat)
    requires at < 512 && at % 32 == 0
    ensures InSector(g, 16 * i + at / 32, RootStart(g) + i, at)
  {
  }

  /** What a slot that the scan comes to is. */
  lemma {:induction false} SlotKind(v: Volume, name: seq<byte>, k: nat)
    requires SlotsOk(v) && k < |v.slots| && Reached(v, k) && |name| == 11
    ensures Vacant(v, k) <==> IsFree(v.slots[k])
    ensures Matches(v, name, k) <==> !IsFree(v.slots[k]) && v.slots[k][11] != 0x0F && v.slots[k][..11] == name
  {
  }

  lemma {:induction false} ScannedMore(g: Geometry, v: Volume, name: seq<byte>, k: nat, freeSector: nat, freeOffset: nat)
    requires Shape(g, v) && Scanned(g, v, name, k, freeSector, freeOffset)
    requires !Matches(v, name, k) && (freeSector == NONE ==> !Vacant(v, k))
    ensures Scanned(g, v, name, k + 1, freeSector, freeOffset)
  {
    hide Matches, Vacant, FirstVacantAt, InSector;
  }

  lemma {:induction false} ScannedVacant(g: Geometry, v: Volume, name: seq<byte>, i: nat, e: nat, o: nat)
    requires Shape(g, v) && i < g.rootSectors && e < 16 && RootStart(g) + i != NONE
    requires Scanned(g, v, name, 16 * i + e, NONE, o)
    requires Vacant(v, 16 * i + e) && !Matches(v, name, 16 * i + e)
    ensures Scanned(g, v, name, 16 * i + e + 1, RootStart(g) + i, e * 32)
  {
    var k := 16 * i + e;
    hide Matches, Vacant;
    assert FirstVacantAt(v, k) && InSector(g, k, RootStart(g) + i, e * 32);
    hide FirstVacantAt, InSector;
  }

  lemma {:induction false} ScannedMatch(g: Geometry, v: Volume, name: seq<byte>, k: nat, freeSector: nat, freeOffset: nat)
    requires Shape(g, v) && Scanned(g, v, name, k, freeSector, freeOffset) && Matches(v, name, k)
    ensures Find(v, name) == Existing(k)
  {
    hide Matches, Vacant, Find;
    TargetUnique(v, name, Existing(k));
  }


  lemma {:induction false} ScannedNothing(g: Geometry, v: Volume, name: seq<byte>)
    requires Shape(g, v)
    ensures Scanned(g, v, name, 0, NONE, NONE)
  {
  }

  lemma {:induction false} ScannedAll(g: Geometry, v: Volume, name: seq<byte>, freeSector: nat, freeOffset: nat) returns (t: Target)
    requires Shape(g, v) && Scanned(g, v, name, 16 * g.rootSectors, freeSector, freeOffset)
    ensures t == Find(v, name)
    ensures freeSector != NONE ==> t.Fresh? && InSector(g, t.k, freeSector, freeOffset)
    ensures freeSector == NONE ==> t.Full?
  {
    hide Matches, Vacant;
    if freeSector != NONE {
      var k: nat :| FirstVacantAt(v, k) && InSector(g, k, freeSector, freeOffset);
      t := Fresh(k);
    } else {
      t := Full;
    }
    TargetUnique(v, name, t);
  }

  lemma {:induction false} ScannedStop(g: Geometry, v: Volume, name: seq<byte>, i: nat, e: nat, freeSector: nat, freeOffset: nat)
    requires Shape(g, v) && i < g.rootSectors && e < 16
    requires |v.slots[16 * i + e]| == 32 && v.slots[16 * i + e][0] == 0
    requires Scanned(g, v, name, 16 * i + e + 1, freeSector, freeOffset)
    ensures Scanned(g, v, name, 16 * i + 16, freeSector, freeOffset)
  {
    var k, n := 16 * i + e, 16 * i + 16;
    ListingStops(v, k, n);
    hide Reached;
    assert forall j :: k < j < n ==> !Matches(v, name, j) && !Vacant(v, j);
  }

  /** Slot `k` lies at this byte offset of this sector. */
  ghost predicate InSector(g: Geometry, k: nat, sector: nat, offset: nat) {
    sector == RootStart(g) + k / 16 && offset == k % 16 * 32
  }

  /** Following the links from `start` never leaves the table. */
  ghost predicate LinksInside(t: seq<nat>, start: nat) {
    forall c: nat :: Reachable(t, start, c) ==> c < |t|
  }

  lemma {:induction false} StartInside(t: seq<nat>, s: nat)
    requires Link(s) && LinksInside(t, s)
    ensures s < |t|
  {
    assert Walk(t, s, 0) == s;
    assert Reachable(t, s, s);
  }

  lemma {:induction false} LinksInsideStep(t: seq<nat>, s: nat)
    requires Link(s) && s < |t| && LinksInside(t, s)
    ensures LinksInside(t[s := 0], t[s])
  {
    var t' := t[s := 0];
    forall c: nat | Reachable(t', t[s], c)
      ensures c < |t'|
    {
      ReachableShrinks(t, s, c);
    }
  }

  /** What a write demands of the volume: the chain it replaces stays inside the table. */
  ghost predicate Replaceable(v: Volume, f: seq<byte>)
    requires SlotsOk(v)
  {
    var t := Find(v, f);
    t.Existing? ==> LinksInside(v.table, FirstCluster(v.slots[t.k]))
  }

  lemma {:induction false} WellFormedIsReplaceable(g: Geometry, v: Volume, f: seq<byte>)
    requires ValidGeometry(g) && WellFormed(g, v)
    ensures Replaceable(v, f)
  {
    var t := Find(v, f);
    if t.Existing? {
      assert SlotOk(g, v, t.k);
      var first, n := FirstCluster(v.slots[t.k]), Length(g, v, t.k);
      ChainBounds(v.table, g.clusters + 2, first, n);
      forall c: nat | Reachable(v.table, first, c)
        ensures c < |v.table|
      {
        ChainIsReachable(v.table, g.clusters + 2, first, n, c);
      }
    }
  }

  /** What a read still has to collect. */
  ghost function Rest(g: Geometry, v: Volume, c: nat, want: nat, done: bool): seq<byte>
    requires ValidGeometry(g) && Shape(g, v) && (!done ==> Readable(g, v, c, want))
  {
    if done then [] else ReadFrom(g, v, c, want)
  }

  lemma {:induction false} ReadStep(g: Geometry, v: Volume, c: nat, want: nat, got: seq<byte>) returns (bytes: seq<byte>)
    requires ValidGeometry(g) && Shape(g, v) && Readable(g, v, c, want)
    requires want > 0 && 2 <= c < 0x0FFF_FFF8
    ensures c < g.clusters + 2 && |ClusterBytes(g, v.data, c)| == ClusterSize(g)
    ensures |bytes| == Min(ClusterSize(g), want) && bytes == ClusterBytes(g, v.data, c)[..|bytes|]
    ensures v.table[c] < 0xFFF8 ==> Readable(g, v, v.table[c], want - |bytes|)
    ensures got + ReadFrom(g, v, c, want) == got + bytes + Rest(g, v, v.table[c], want - |bytes|, v.table[c] >= 0xFFF8)
  {
    hide ClusterBytes;
    ClusterBytesLength(g, v.data, c);
    bytes := ClusterBytes(g, v.data, c)[..Min(ClusterSize(g), want)];
    var rest := Rest(g, v, v.table[c], want - |bytes|, v.table[c] >= 0xFFF8);
    assert ReadFrom(g, v, c, want) == bytes + rest;
    Associate(got, bytes, rest);
  }


  lemma {:induction false} ReadEnds(g: Geometry, v: Volume, c: nat, want: nat)
    requires ValidGeometry(g) && Shape(g, v) && Readable(g, v, c, want)
    requires want == 0 || c < 2 || c >= 0x0FFF_FFF8
    ensures ReadFrom(g, v, c, want) == []
  {
  }

  /** The device went from `d` to `d'` as `Write` says, with result `r`. */
  ghost predicate Wrote(g: Geometry, d: seq<seq<byte>>, d': seq<seq<byte>>, f: seq<byte>, src: seq<byte>, r: int) {
    && OnDisk(g, d) && OnDisk(g, d') && |f| == 11 && |src| < TWO32
    && Write(g, View(g, d), f, src) == Outcome(r, View(g, d'))
  }

  lemma {:induction false} TableAfterFreeCases(v: Volume, t: Target)
    requires t.Existing? ==> t.k < |v.slots| && |v.slots[t.k]| == 32
    ensures t.Existing? && FirstCluster(v.slots[t.k]) >= 2 ==> TableAfterFree(v, t) == Freed(v.table, FirstCluster(v.slots[t.k]))
    ensures t.Fresh? || (t.Existing? && FirstCluster(v.slots[t.k]) < 2) ==> TableAfterFree(v, t) == v.table
  {
  }

  lemma {:induction false} WroteNothing(g: Geometry, d: seq<seq<byte>>, f: seq<byte>, src: seq<byte>)
    requires OnDisk(g, d) && |f| == 11 && |src| < TWO32 && Find(View(g, d), f).Full?
    ensures Wrote(g, d, d, f, src, -1)
  {
    hide View;
  }

  lemma {:induction false} WroteNoSpace(g: Geometry, d: seq<seq<byte>>, d': seq<seq<byte>>, f: seq<byte>, src: seq<byte>)
    requires OnDisk(g, d) && OnDisk(g, d') && |f| == 11 && 0 < |src| < TWO32
    requires var v, t := View(g, d), Find(View(g, d), f);
      && !t.Full? && RunFor(g, v, t, |src|) == 0
      && View(g, d') == v.(table := TableAfterFree(v, t))
    ensures Wrote(g, d, d', f, src, -1)
  {
    hide View;
  }

  lemma {:induction false} WroteFile(g: Geometry, d: seq<seq<byte>>, d': seq<seq<byte>>, f: seq<byte>, src: seq<byte>, w: Volume)
    requires OnDisk(g, d) && OnDisk(g, d') && |f| == 11 && |src| < TWO32 && Shape(g, w)
    requires var v, t := View(g, d), Find(View(g, d), f);
      var table, n := TableAfterFree(v, t), Needed32(g, |src|);
      && !t.Full?
      && (src == [] ==> w == v.(table := table))
      && (src != [] ==>
            var c := RunFor(g, v, t, |src|);
            && c != 0
            && w == Volume(LinkRun(table, c, n), v.slots, PutSectors(v.data, ClusterBase(g, c), src, Written(g, |src|, n))))
      && View(g, d') == w.(slots := w.slots[t.k :=
           PutSlot(w.slots[t.k], f, if src == [] then 0 else RunFor(g, v, t, |src|), |src|)])
    ensures Wrote(g, d, d', f, src, 0)
  {
    hide View, PutSectors, LinkRun;
  }

  ghost predicate FirstVacantAt(v: Volume, k: nat)
    requires SlotsOk(v)
  {
    Vacant(v, k) && forall j :: 0 <= j < k ==> !Vacant(v, j)
  }

  /** The links the data loop follows: the linked run, or one free cluster when the count wrapped. */
  ghost predicate RunLinks(t: seq<nat>, first: nat, needed: nat)
    requires first + RunLength(needed) <= |t|
  {
    forall x :: first <= x < first + RunLength(needed) ==>
      t[x] == if needed == 0 then 0 else if x + 1 == first + needed then 0xFFFF else x + 1
  }

  ghost function PartlyLinked(t: seq<nat>, first: nat, needed: nat, i: nat): seq<nat> {
    seq(|t|, x requires 0 <= x < |t| => if first <= x < first + i then LinkRun(t, first, needed)[x] else t[x])
  }

  lemma {:induction false} PartlyLinkedStep(t: seq<nat>, first: nat, needed: nat, i: nat)
    requires i < needed && first + needed <= |t|
    ensures var val := if i + 1 == needed then 0xFFFF else first + i + 1;
      PartlyLinked(t, first, needed, i)[first + i := val] == PartlyLinked(t, first, needed, i + 1)
    ensures |PartlyLinked(t, first, needed, i)| == |t|
  {
    var val := if i + 1 == needed then 0xFFFF else first + i + 1;
    var p, q := PartlyLinked(t, first, needed, i), PartlyLinked(t, first, needed, i + 1);
    assert LinkRun(t, first, needed)[first + i] == val;
    assert forall x :: 0 <= x < |t| ==> p[first + i := val][x] == q[x];
  }

  lemma {:induction false} LinkedRunLinks(t: seq<nat>, first: nat, needed: nat)
    requires first + RunLength(needed) <= |t| && (needed == 0 ==> t[first] == 0)
    ensures RunLinks(LinkRun(t, first, needed), first, needed)
  {
  }

  lemma {:induction false} PartlyLinkedEnds(t: seq<nat>, first: nat, needed: nat)
    ensures PartlyLinked(t, first, needed, 0) == t
    ensures PartlyLinked(t, first, needed, needed) == LinkRun(t, first, needed)
  {
  }

  /** The cache depends on the directory only. */
  lemma {:induction false} CacheOfSlots(v: Volume, w: Volume)
    requires SlotsOk(v)
    requires w.slots == v.slots
    ensures Cache(w) == Cache(v)
  {
    assert forall k :: 0 <= k < |v.slots| ==> (Reached(w, k) <==> Reached(v, k));
    ListingFrame(v, w, |v.slots|);
  }

  lemma {:induction false} PutNoSectors(data: seq<seq<byte>>, base: nat, src: seq<byte>)
    ensures PutSectors(data, base, src, 0) == data
  {
  }

  ghost function InUse(t: seq<nat>): set<nat> {
    set c | 0 <= c < |t| && t[c] != 0
  }

  /** The measure of the freeing loop: a visited entry is no longer in use, and an entry that already
      was free ends the walk. */
  lemma {:induction false} InUseShrinks(t: seq<nat>, c: nat)
    requires c < |t|
    ensures t[c] != 0 ==> |InUse(t[c := 0])| < |InUse(t)|
    ensures t[c] == 0 ==> t[c := 0] == t
  {
    var t' := t[c := 0];
    if t[c] != 0 {
      assert InUse(t) == InUse(t') + {c};
    }
  }

  lemma {:induction false} FullSector(src: seq<byte>, i: nat)
    requires 512 * i + 512 <= |src|
    ensures SectorOf(src, i) == src[512 * i..512 * i + 512]
  {
  }

  lemma {:induction false} LastSector(src: seq<byte>, i: nat, buf: seq<byte>)
    requires 512 * i < |src| < 512 * i + 512 && |buf| == 512
    requires buf[..|src| - 512 * i] == src[512 * i..] && forall k :: |src| - 512 * i <= k < 512 ==> buf[k] == 0
    ensures SectorOf(src, i) == buf
  {
  }

  lemma {:induction false} TakeMore(bytes: seq<byte>, part: seq<byte>, at: nat, n: nat)
    requires n <= |part| && at + |part| <= |bytes| && bytes[at..at + |part|] == part
    ensures bytes[..at + n] == bytes[..at] + part[..n]
  {
  }

  lemma {:induction false} ClusterBytesAre(g: Geometry, data: seq<seq<byte>>, c: nat)
    requires |data| == g.clusters * g.spc && 2 <= c < g.clusters + 2
    ensures ClusterBase(g, c) + g.spc <= |data|
    ensures ClusterBytes(g, data, c) == Flatten(data[ClusterBase(g, c)..ClusterBase(g, c) + g.spc])
  {
    ClusterInside(g, c);
  }

  /** The bytes of sector `i` inside a flattened run of sectors. */
  lemma {:induction false} FlattenAt(ss: seq<seq<byte>>, i: nat)
    requires i < |ss| && forall j :: 0 <= j < |ss| ==> |ss[j]| == 512
    ensures |Flatten(ss)| == 512 * |ss|
    ensures Flatten(ss)[512 * i..512 * i + 512] == ss[i]
  {
    FlattenLength(ss);
    if i > 0 {
      FlattenAt(ss[1..], i - 1);
      var rest := Flatten(ss[1..]);
      assert (ss[0] + rest)[512 * i..512 * i + 512] == rest[512 * (i - 1)..512 * (i - 1) + 512];
    }
  }

  lemma {:induction false} PutSectorsStep(data: seq<seq<byte>>, base: nat, src: seq<byte>, m: nat)
    requires m < SectorCount(|src|) && base + m < |data|
    ensures PutSectors(data, base, src, m)[base + m := SectorOf(src, m)] == PutSectors(data, base, src, m + 1)
  {
  }

  /** Cluster `i` of a run starts `i * spc` sectors behind the run's first sector. */
  lemma {:induction false} RunStep(g: Geometry, first: nat, i: nat, n: nat)
    requires 2 <= first && first + n <= g.clusters
    ensures ClusterToLba(g, first + i) == DataStart(g) + ClusterBase(g, first) + i * g.spc
    ensures (i + 1) * g.spc == i * g.spc + g.spc
    ensures i < n ==> ClusterBase(g, first) + i * g.spc + g.spc <= g.clusters * g.spc
  {
    MulSplit(first - 2, i, g.spc);
    MulStep(i + 1, g.spc);
    if i < n {
      RunInside(g, first, i + 1);
    }
  }

  lemma {:induction false} WrittenAll(g: Geometry, size: nat, n: nat, i: nat, m: nat, remaining: nat)
    requires i <= RunLength(n) && m <= SectorCount(size)
    requires if remaining > 0 then m == i * g.spc && i == RunLength(n) else m == SectorCount(size) <= i * g.spc
    ensures m == Written(g, size, n)
  {
    MulMono(i, RunLength(n), g.spc);
  }

  /** A directory sector is unchanged when its slots are. */
  lemma {:induction false} SameSectors(g: Geometry, d: seq<seq<byte>>, d': seq<seq<byte>>, i: nat)
    requires OnDisk(g, d) && OnDisk(g, d') && SameOutside(g, d, d') && i < g.rootSectors
    requires View(g, d').slots == View(g, d).slots
    ensures RootStart(g) + i < |d| == |d'| && d'[RootStart(g) + i] == d[RootStart(g) + i]
  {
    hide View;
    SameDirSector(g, d, d', i);
  }

  lemma {:induction false} SameDirSector(g: Geometry, d: seq<seq<byte>>, d': seq<seq<byte>>, i: nat)
    requires OnDisk(g, d) && OnDisk(g, d') && |d| == |d'| && i < g.rootSectors
    requires View(g, d').slots == View(g, d).slots
    ensures RootStart(g) + i < |d| && d'[RootStart(g) + i] == d[RootStart(g) + i]
  {
    RegionsApart(g);
    var l := RootStart(g) + i;
    forall b | 0 <= b < 512
      ensures d'[l][b] == d[l][b]
    {
      var k := i * 16 + b / 32;
      assert k / 16 == i && k % 16 == b / 32;
      assert SlotAt(g, d', k) == View(g, d').slots[k] == View(g, d).slots[k] == SlotAt(g, d, k);
      assert SlotAt(g, d', k)[b % 32] == SlotAt(g, d, k)[b % 32];
    }
    assert d'[l] == d[l];
  }
}
