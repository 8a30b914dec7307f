/** A FAT16 volume seen abstractly: the allocation table, the 32-byte root directory slots and the
    data sectors. `Write` says what `fat_write_file` does to a volume and `FileBytes` what
    `fat_read_file` finds there; FatTheorems states what follows and FatDriver proves that the
    sector-level code does exactly this. */
module FatVolume {
  import opened Arithmetic
  import opened Bytes
  import opened FatTable
  import opened FatNames

  /** Sector counts: reserved area, number and size of the FATs, root directory, sectors per cluster,
      and the number of data clusters. */
  datatype Geometry = Geometry(reserved: nat, numFats: nat, fatSize: nat, rootSectors: nat,
                               spc: nat, clusters: nat)

  /** A FAT16 geometry: the cluster count is in the FAT16 range and the FAT has room for every cluster. */
  predicate ValidGeometry(g: Geometry) {
    && 1 <= g.numFats && 1 <= g.spc < 256
    && 4085 <= g.clusters < 65525
    && g.clusters + 2 <= 256 * g.fatSize
  }

  datatype Volume = Volume(table: seq<nat>, slots: seq<seq<byte>>, data: seq<seq<byte>>)

  /** Every directory slot has 32 bytes. */
  ghost predicate SlotsOk(v: Volume) {
    forall k :: 0 <= k < |v.slots| ==> |v.slots[k]| == 32
  }

  ghost predicate Shape(g: Geometry, v: Volume) {
    && |v.table| == 256 * g.fatSize
    && |v.slots| == 16 * g.rootSectors
    && SlotsOk(v)
    && |v.data| == g.clusters * g.spc
    && (forall l :: 0 <= l < |v.data| ==> |v.data[l]| == 512)
  }

  // ---------------------------------------------------------------- directory slots

  predicate IsFree(s: seq<byte>)
    requires |s| == 32
  {
    s[0] == 0 || s[0] == 0xE5
  }

  function FirstCluster(s: seq<byte>): nat
    requires |s| == 32
  {
    U16(s, 26)
  }

  function Size(s: seq<byte>): nat
    requires |s| == 32
  {
    U32(s, 28)
  }

  /** Directory scans give up on a sector at its first zero byte entry, and on that sector only. */
  ghost predicate Reached(v: Volume, k: nat)
    requires k < |v.slots| && SlotsOk(v)
  {
    forall j :: k / 16 * 16 <= j < k ==> v.slots[j][0] != 0
  }

  /** A slot that can own clusters: every live entry except long-name parts (attribute 0x0F). */
  ghost predicate Owner(v: Volume, k: nat)
    requires SlotsOk(v)
  {
    k < |v.slots| && Reached(v, k) && !IsFree(v.slots[k]) && v.slots[k][11] != 0x0F
  }

  /** A slot that the listing shows: an owner without the volume-label bit 0x08. */
  ghost predicate Visible(v: Volume, k: nat)
    requires SlotsOk(v)
  {
    Owner(v, k) && v.slots[k][11] / 8 % 2 == 0
  }

  ghost predicate Matches(v: Volume, f: seq<byte>, k: nat)
    requires SlotsOk(v)
  {
    Owner(v, k) && v.slots[k][..11] == f
  }

  ghost predicate Vacant(v: Volume, k: nat)
    requires SlotsOk(v)
  {
    k < |v.slots| && Reached(v, k) && IsFree(v.slots[k])
  }

  /** Where a name goes: the slot that has it, else the first vacant slot, else nowhere. */
  datatype Target = Existing(k: nat) | Fresh(k: nat) | Full

  ghost predicate IsTarget(v: Volume, f: seq<byte>, r: Target)
    requires SlotsOk(v)
  {
    match r
    case Existing(k) => Matches(v, f, k) && forall j :: 0 <= j < k ==> !Matches(v, f, j)
    case Fresh(k) =>
      && Vacant(v, k) && (forall j :: 0 <= j < k ==> !Vacant(v, j))
      && forall j :: 0 <= j < |v.slots| ==> !Matches(v, f, j)
    case Full =>
      && (forall j :: 0 <= j < |v.slots| ==> !Matches(v, f, j))
      && forall j :: 0 <= j < |v.slots| ==> !Vacant(v, j)
  }

  ghost function FirstMatch(v: Volume, f: seq<byte>, k: nat): (r: nat)
    requires SlotsOk(v)
    requires k <= |v.slots| && forall j :: 0 <= j < k ==> !Matches(v, f, j)
    ensures r <= |v.slots| && (forall j :: 0 <= j < r ==> !Matches(v, f, j))
    ensures r < |v.slots| ==> Matches(v, f, r)
    decreases |v.slots| - k
  {
    if k == |v.slots| || Matches(v, f, k) then k else FirstMatch(v, f, k + 1)
  }

  ghost function FirstVacant(v: Volume, k: nat): (r: nat)
    requires SlotsOk(v)
    requires k <= |v.slots| && forall j :: 0 <= j < k ==> !Vacant(v, j)
    ensures r <= |v.slots| && (forall j :: 0 <= j < r ==> !Vacant(v, j))
    ensures r < |v.slots| ==> Vacant(v, r)
    decreases |v.slots| - k
  {
    if k == |v.slots| || Vacant(v, k) then k else FirstVacant(v, k + 1)
  }

  ghost function Find(v: Volume, f: seq<byte>): (r: Target)
    requires SlotsOk(v)
    ensures IsTarget(v, f, r)
  {
    var m := FirstMatch(v, f, 0);
    if m < |v.slots| then Existing(m)
    else
      var k := FirstVacant(v, 0);
      if k < |v.slots| then Fresh(k) else Full
  }

  lemma {:induction false} TargetUnique(v: Volume, f: seq<byte>, r: Target)
    requires SlotsOk(v)
    requires IsTarget(v, f, r)
    ensures r == Find(v, f)
  {
    var q := Find(v, f);
    match (q, r) {
      case (Existing(a), Existing(b)) => assert !(a < b) && !(b < a);
      case (Fresh(a), Fresh(b)) => assert !(a < b) && !(b < a);
      case _ =>
    }
  }

  /** The entry after a write: name, archive attribute, cluster and size; other bytes stay. */
  function PutSlot(s: seq<byte>, f: seq<byte>, cluster: nat, size: nat): (r: seq<byte>)
    requires |s| == 32 && |f| == 11 && cluster < 0x1_0000 && size < TWO32
    ensures |r| == 32 && r[..11] == f && r[11] == 0x20
    ensures U16(r, 20) == 0 && FirstCluster(r) == cluster && Size(r) == size
    ensures forall i :: 12 <= i < 20 || 22 <= i < 26 ==> r[i] == s[i]
  {
    PutU32(PutU16(PutU16(f + [0x20] + s[12..], 20, 0), 26, cluster), 28, size)
  }

  // ---------------------------------------------------------------- the listing and its cache

  datatype FileInfo = FileInfo(name: seq<byte>, size: nat, cluster: nat)

  function Info(s: seq<byte>): FileInfo
    requires |s| == 32
  {
    FileInfo(Render(s[..11]), Size(s), U16(s, 20) * 0x1_0000 + FirstCluster(s))
  }

  /** What the visible slots below `n` show, in slot order. */
  ghost function Listing(v: Volume, n: nat): seq<FileInfo>
    requires SlotsOk(v)
    requires n <= |v.slots|
  {
    if n == 0 then []
    else Listing(v, n - 1) + if Visible(v, n - 1) then [Info(v.slots[n - 1])] else []
  }

  const CACHE_SIZE: nat := 32

  function FirstOf<T>(s: seq<T>, n: nat): seq<T> {
    if |s| <= n then s else s[..n]
  }

  /** `fat_files`: the first 32 visible entries. */
  ghost function Cache(v: Volume): seq<FileInfo>
    requires SlotsOk(v)
  {
    FirstOf(Listing(v, |v.slots|), CACHE_SIZE)
  }

  /** The cache lookup of `fat_read_file`: index of the first entry with that name, or |files|. */
  function Lookup(files: seq<FileInfo>, name: seq<byte>): (i: nat)
    ensures i <= |files|
    ensures i < |files| ==> files[i].name == name
    ensures forall j :: 0 <= j < i ==> files[j].name != name
  {
    if files == [] || files[0].name == name then 0 else 1 + Lookup(files[1..], name)
  }

  // ---------------------------------------------------------------- file contents

  function ClusterSize(g: Geometry): nat {
    512 * g.spc
  }

  /** ceil(size / cluster size), without machine arithmetic. */
  function Need(g: Geometry, size: nat): nat
    requires g.spc > 0
  {
    Quotient(size + ClusterSize(g) - 1, ClusterSize(g))
  }

  function Flatten(ss: seq<seq<byte>>): seq<byte> {
    if ss == [] then [] else ss[0] + Flatten(ss[1..])
  }

  /** Index of the first data sector of a cluster. */
  function ClusterBase(g: Geometry, c: nat): nat
    requires 2 <= c
  {
    (c - 2) * g.spc
  }

  predicate Clusters(g: Geometry, chain: seq<nat>) {
    forall i :: 0 <= i < |chain| ==> 2 <= chain[i] < g.clusters + 2
  }

  function ClusterBytes(g: Geometry, data: seq<seq<byte>>, c: nat): seq<byte>
    requires |data| == g.clusters * g.spc && 2 <= c < g.clusters + 2
  {
    ClusterInside(g, c);
    Flatten(data[ClusterBase(g, c)..ClusterBase(g, c) + g.spc])
  }

  function ContentOf(g: Geometry, data: seq<seq<byte>>, chain: seq<nat>): seq<byte>
    requires |data| == g.clusters * g.spc && Clusters(g, chain)
  {
    if chain == [] then [] else ClusterBytes(g, data, chain[0]) + ContentOf(g, data, chain[1..])
  }

  lemma {:induction false} ClusterInside(g: Geometry, c: nat)
    requires 2 <= c < g.clusters + 2
    ensures ClusterBase(g, c) + g.spc <= g.clusters * g.spc
  {
    MulStep(c - 1, g.spc);
    MulMono(c - 1, g.clusters, g.spc);
  }

  // ---------------------------------------------------------------- reading

  /** Every cluster that a read of `want` bytes from cluster `c` visits lies on the volume. */
  ghost predicate Readable(g: Geometry, v: Volume, c: nat, want: nat)
    requires g.spc > 0 && g.clusters + 2 <= |v.table|
    decreases want
  {
    want == 0 || c < 2 || c >= 0x0FFF_FFF8 ||
    (&& c < g.clusters + 2
     && (want <= ClusterSize(g) || v.table[c] >= 0xFFF8 || Readable(g, v, v.table[c], want - ClusterSize(g))))
  }

  /** The bytes `fat_read_file` collects from cluster `c` on when it wants `want` of them: whole
      clusters along the links until it has enough or the links stop. */
  ghost function ReadFrom(g: Geometry, v: Volume, c: nat, want: nat): seq<byte>
    requires g.spc > 0 && Shape(g, v) && g.clusters + 2 <= |v.table| && Readable(g, v, c, want)
    decreases want
  {
    if want == 0 || c < 2 || c >= 0x0FFF_FFF8 then []
    else
      var bytes := ClusterBytes(g, v.data, c);
      if want <= ClusterSize(g) then FirstOf(bytes, want)
      else if v.table[c] >= 0xFFF8 then bytes
      else bytes + ReadFrom(g, v, v.table[c], want - ClusterSize(g))
  }

  lemma {:induction false} ClusterOrder(g: Geometry, a: nat, r: nat, x: nat)
    requires 2 <= a && 2 <= x
    ensures x < a ==> ClusterBase(g, x) + g.spc <= ClusterBase(g, a)
    ensures x >= a + r ==> ClusterBase(g, x) >= ClusterBase(g, a) + r * g.spc
  {
    if x < a {
      MulMono(x - 1, a - 2, g.spc);
      MulStep(x - 1, g.spc);
    } else if x >= a + r {
      MulMono(a - 2 + r, x - 2, g.spc);
      MulSplit(a - 2, r, g.spc);
    }
  }

  // ---------------------------------------------------------------- well-formed volumes

  /** A subdirectory. Its size field says nothing about its clusters. */
  predicate IsDirectory(s: seq<byte>)
    requires |s| == 32
  {
    s[11] / 16 % 2 == 1
  }

  /** How many clusters a slot claims: as many as its size needs, or, for a subdirectory, as many as its
      links show. */
  ghost function Length(g: Geometry, v: Volume, k: nat): nat
    requires g.spc > 0 && g.clusters + 2 <= |v.table|
    requires k < |v.slots| && |v.slots[k]| == 32
  {
    if IsDirectory(v.slots[k]) then EndLength(v.table, g.clusters + 2, FirstCluster(v.slots[k]))
    else Need(g, Size(v.slots[k]))
  }

  /** The clusters a slot claims, from its first cluster on. */
  ghost function SlotChain(g: Geometry, v: Volume, k: nat): seq<nat>
    requires g.spc > 0 && g.clusters + 2 <= |v.table|
    requires k < |v.slots| && |v.slots[k]| == 32
  {
    Chain(v.table, FirstCluster(v.slots[k]), Length(g, v, k))
  }

  ghost predicate SlotOk(g: Geometry, v: Volume, k: nat)
    requires g.spc > 0 && g.clusters + 2 <= |v.table|
    requires k < |v.slots| && |v.slots[k]| == 32
  {
    && U16(v.slots[k], 20) == 0
    && ChainOk(v.table, g.clusters + 2, FirstCluster(v.slots[k]), Length(g, v, k))
  }

  /** Any other length at which the chain ends would do. */
  lemma {:induction false} LengthIs(g: Geometry, v: Volume, k: nat, n: nat)
    requires ValidGeometry(g) && g.clusters + 2 <= |v.table| && k < |v.slots| && |v.slots[k]| == 32
    requires ChainOk(v.table, g.clusters + 2, FirstCluster(v.slots[k]), n)
    ensures IsDirectory(v.slots[k]) || n == Need(g, Size(v.slots[k])) ==> Length(g, v, k) == n
  {
    EndLengthIs(v.table, g.clusters + 2, FirstCluster(v.slots[k]), n);
  }

  /** Nothing live behind the end marker of a directory sector. */
  ghost predicate CleanTail(v: Volume)
    requires SlotsOk(v)
  {
    forall j, k :: 0 <= j < k < |v.slots| && j / 16 == k / 16 && v.slots[j][0] == 0 ==> IsFree(v.slots[k])
  }

  ghost predicate Disjoint(a: seq<nat>, b: seq<nat>) {
    forall x :: x in a ==> x !in b
  }

  /** Every owner's chain ends properly, a file's after exactly the clusters its size needs, and no cluster
      has two owners. */
  ghost predicate WellFormed(g: Geometry, v: Volume)
    requires ValidGeometry(g)
  {
    && Shape(g, v)
    && CleanTail(v)
    && (forall k :: 0 <= k < |v.slots| && Owner(v, k) ==> SlotOk(g, v, k))
    && (forall j, k :: 0 <= j < k < |v.slots| && Owner(v, j) && Owner(v, k) ==>
          Disjoint(SlotChain(g, v, j), SlotChain(g, v, k)))
  }

  /** The bytes of the file in a well-formed slot; for a subdirectory, all that its clusters hold. */
  ghost function FileBytes(g: Geometry, v: Volume, k: nat): (r: seq<byte>)
    requires ValidGeometry(g) && Shape(g, v) && k < |v.slots| && SlotOk(g, v, k)
    ensures |r| == if IsDirectory(v.slots[k]) then Length(g, v, k) * ClusterSize(g) else Size(v.slots[k])
  {
    SlotChainClusters(g, v, k);
    ContentLength(g, v.data, SlotChain(g, v, k));
    NeedCovers(g, Size(v.slots[k]));
    var content := ContentOf(g, v.data, SlotChain(g, v, k));
    if IsDirectory(v.slots[k]) then content else content[..Size(v.slots[k])]
  }

  lemma {:induction false} SlotChainClusters(g: Geometry, v: Volume, k: nat)
    requires ValidGeometry(g) && Shape(g, v) && k < |v.slots| && SlotOk(g, v, k)
    ensures Clusters(g, SlotChain(g, v, k))
  {
    ChainBounds(v.table, g.clusters + 2, FirstCluster(v.slots[k]), Length(g, v, k));
    var chain := SlotChain(g, v, k);
    assert forall i :: 0 <= i < |chain| ==> chain[i] in chain;
  }

  lemma {:induction false} FlattenLength(ss: seq<seq<byte>>)
    requires forall i :: 0 <= i < |ss| ==> |ss[i]| == 512
    ensures |Flatten(ss)| == 512 * |ss|
  {
    if ss != [] {
      FlattenLength(ss[1..]);
    }
  }

  lemma {:induction false} FlattenConcat(a: seq<seq<byte>>, b: seq<seq<byte>>)
    ensures Flatten(a + b) == Flatten(a) + Flatten(b)
  {
    if a == [] {
      assert a + b == b;
    } else {
      calc {
        Flatten(a + b);
        { assert (a + b)[0] == a[0] && (a + b)[1..] == a[1..] + b; }
        a[0] + Flatten(a[1..] + b);
        { FlattenConcat(a[1..], b); }
        a[0] + (Flatten(a[1..]) + Flatten(b));
        Flatten(a) + Flatten(b);
      }
    }
  }

  lemma {:induction false} ClusterBytesLength(g: Geometry, data: seq<seq<byte>>, c: nat)
    requires |data| == g.clusters * g.spc && 2 <= c < g.clusters + 2
    requires forall l :: 0 <= l < |data| ==> |data[l]| == 512
    ensures |ClusterBytes(g, data, c)| == ClusterSize(g)
  {
    ClusterInside(g, c);
    FlattenLength(data[ClusterBase(g, c)..ClusterBase(g, c) + g.spc]);
  }

  lemma {:induction false} ContentLength(g: Geometry, data: seq<seq<byte>>, chain: seq<nat>)
    requires |data| == g.clusters * g.spc && Clusters(g, chain)
    requires forall l :: 0 <= l < |data| ==> |data[l]| == 512
    ensures |ContentOf(g, data, chain)| == |chain| * ClusterSize(g)
  {
    if chain != [] {
      ContentLength(g, data, chain[1..]);
      ClusterBytesLength(g, data, chain[0]);
      MulStep(|chain|, ClusterSize(g));
    }
  }

  lemma {:induction false} NeedCovers(g: Geometry, size: nat)
    requires g.spc > 0
    ensures size <= Need(g, size) * ClusterSize(g) < size + ClusterSize(g)
    ensures Need(g, size) == 0 <==> size == 0
    ensures (size + 511) / 512 <= Need(g, size) * g.spc
  {
    var cs, n := ClusterSize(g), Need(g, size);
    DivBounds(size + cs - 1, cs);
    MulAssoc(n, 512, g.spc);
  }

  // ---------------------------------------------------------------- writing a file

  /** Sector `i` of a buffer, the last one padded with zeroes. */
  function SectorOf(src: seq<byte>, i: nat): (s: seq<byte>)
    requires 512 * i < |src|
    ensures |s| == 512
  {
    if 512 * i + 512 <= |src| then src[512 * i..512 * i + 512]
    else src[512 * i..] + seq(512 - (|src| - 512 * i), _ => 0)
  }

  function SectorCount(size: nat): nat {
    (size + 511) / 512
  }

  /** The first `m` sectors of a buffer written over the data sectors from `base` on. */
  function PutSectors(data: seq<seq<byte>>, base: nat, src: seq<byte>, m: nat): (r: seq<seq<byte>>)
    requires m <= SectorCount(|src|)
    ensures |r| == |data|
  {
    seq(|data|, l requires 0 <= l < |data| =>
      if base <= l < base + m then SectorOf(src, l - base) else data[l])
  }

  /** `clusters_needed` as the 32-bit code computes it: the sum wraps. */
  function Needed32(g: Geometry, size: nat): nat
    requires g.spc > 0
  {
    var sum: nat := (size + ClusterSize(g) - 1) % 0x1_0000_0000;
    Quotient(sum, ClusterSize(g))
  }

  /** The sizes for which that sum wraps. */
  predicate Wraps(g: Geometry, size: nat) {
    size + ClusterSize(g) - 1 >= TWO32
  }

  /** How many clusters must be free and how many of them get written: even a wrapped count of zero
      takes one cluster. */
  function RunLength(n: nat): nat {
    if n == 0 then 1 else n
  }

  function Written(g: Geometry, size: nat, n: nat): (m: nat)
    ensures m <= SectorCount(size)
  {
    Min(SectorCount(size), RunLength(n) * g.spc)
  }

  datatype Outcome = Outcome(code: int, vol: Volume)

  /** The table after the old chain of the target was given back. */
  ghost function TableAfterFree(v: Volume, t: Target): (r: seq<nat>)
    requires t.Existing? ==> t.k < |v.slots| && |v.slots[t.k]| == 32
    ensures |r| == |v.table|
  {
    if t.Existing? && FirstCluster(v.slots[t.k]) >= 2 then Freed(v.table, FirstCluster(v.slots[t.k]))
    else v.table
  }

  /** The run the file is stored in; 0 when there is none. */
  ghost function RunFor(g: Geometry, v: Volume, t: Target, size: nat): nat
    requires g.spc > 0 && g.clusters <= |v.table|
    requires t.Existing? ==> t.k < |v.slots| && |v.slots[t.k]| == 32
  {
    FirstRun(TableAfterFree(v, t), g.clusters, RunLength(Needed32(g, size)))
  }

  /** `fat_write_file` on the volume, for an already formatted name. */
  ghost function Write(g: Geometry, v: Volume, f: seq<byte>, src: seq<byte>): Outcome
    requires ValidGeometry(g) && Shape(g, v) && |f| == 11 && |src| < TWO32
  {
    var t := Find(v, f);
    if t.Full? then Outcome(-1, v)
    else
      var table := TableAfterFree(v, t);
      if src == [] then
        Outcome(0, v.(table := table, slots := v.slots[t.k := PutSlot(v.slots[t.k], f, 0, 0)]))
      else
        var n, c := Needed32(g, |src|), RunFor(g, v, t, |src|);
        if c == 0 then Outcome(-1, v.(table := table))
        else
          Outcome(0, Volume(LinkRun(table, c, n),
                            v.slots[t.k := PutSlot(v.slots[t.k], f, c, |src|)],
                            PutSectors(v.data, ClusterBase(g, c), src, Written(g, |src|, n))))
  }

  lemma {:induction false} NeededFacts(g: Geometry, size: nat)
    requires 1 <= g.spc < 256 && 0 < size < TWO32
    ensures !Wraps(g, size) ==> Needed32(g, size) == Need(g, size) >= 1 && Written(g, size, Need(g, size)) == SectorCount(size)
    ensures Wraps(g, size) ==> Needed32(g, size) == 0 && ClusterSize(g) < size
  {
    if Wraps(g, size) {
      WrappedNeed(g, size);
    } else {
      NeedCovers(g, size);
      hide Need, ClusterSize;
      SmallMod(size + ClusterSize(g) - 1);
    }
  }

  lemma {:induction false} SmallMod(x: nat)
    requires x < TWO32
    ensures x % TWO32 == x
  {
  }

  lemma {:induction false} WrappedNeed(g: Geometry, size: nat)
    requires 1 <= g.spc < 256 && 0 < size < TWO32 && Wraps(g, size)
    ensures Needed32(g, size) == 0 && ClusterSize(g) < size
  {
    var cs := ClusterSize(g);
    assert (size + cs - 1) % TWO32 == size + cs - 1 - TWO32;
    DivBounds(size + cs - 1 - TWO32, cs);
  }
}
