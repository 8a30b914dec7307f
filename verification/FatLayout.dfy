/** The on-disk format byte by byte: where entries, slots and clusters lie, what the fields of a slot are, and
    what a successful write leaves behind, all without the functions the driver is specified with. */
module FatLayout {
  import opened Arithmetic
  import opened Bytes
  import opened FatTable
  import opened FatVolume
  import opened FatDisk
  import opened FatTheorems

  // ---------------------------------------------------------------- the disk as bytes

  /** Byte `a` of a disk of 512-byte sectors. */
  function DiskByte(d: seq<seq<byte>>, a: nat): byte
    requires a / 512 < |d| && |d[a / 512]| == 512
  {
    d[a / 512][a % 512]
  }

  /** Entry `c` of the table is a little-endian word of the first FAT, which follows the reserved sectors. */
  lemma {:induction false} EntryBytes(g: Geometry, d: seq<seq<byte>>, c: nat)
    requires OnDisk(g, d) && c < 256 * g.fatSize
    ensures var a := 512 * g.reserved + 2 * c;
      && c < |View(g, d).table| && (a + 1) / 512 < |d|
      && View(g, d).table[c] == DiskByte(d, a) + 256 * DiskByte(d, a + 1)
  {
    ViewEntry(g, d, c);
    var a := 512 * g.reserved + 2 * c;
    assert a / 512 == (a + 1) / 512 == g.reserved + c / 256 && a % 512 == 2 * (c % 256) && (a + 1) % 512 == 2 * (c % 256) + 1;
  }

  /** Slot `k` of the root directory is 32 bytes behind all the FATs. */
  lemma {:induction false} SlotBytes(g: Geometry, d: seq<seq<byte>>, k: nat, b: nat)
    requires OnDisk(g, d) && k < 16 * g.rootSectors && b < 32
    ensures var a := 512 * (g.reserved + g.numFats * g.fatSize) + 32 * k + b;
      && k < |View(g, d).slots| && |View(g, d).slots[k]| == 32 && a / 512 < |d| && |d[a / 512]| == 512
      && View(g, d).slots[k][b] == DiskByte(d, a)
  {
    ViewSlot(g, d, k);
    SlotAddress(g.reserved + g.numFats * g.fatSize, k, b);
  }

  lemma {:induction false} SlotAddress(r: nat, k: nat, b: nat)
    requires b < 32
    ensures (512 * r + 32 * k + b) / 512 == r + k / 16 && (512 * r + 32 * k + b) % 512 == k % 16 * 32 + b
  {
    var q, m := k / 16, k % 16;
    assert 512 * r + 32 * k + b == 512 * (r + q) + (32 * m + b);
  }

  /** Sector `l` of the data is behind the root directory; cluster 2 starts there. */
  lemma {:induction false} DataSectors(g: Geometry, d: seq<seq<byte>>, l: nat)
    requires OnDisk(g, d) && l < g.clusters * g.spc
    ensures var s := g.reserved + g.numFats * g.fatSize + g.rootSectors + l;
      s < |d| && l < |View(g, d).data| && View(g, d).data[l] == d[s]
  {
    ViewData(g, d, l);
  }

  /** Byte `i` of cluster `c` is in data sector (c - 2) * spc + i / 512. */
  lemma {:induction false} ClusterByte(g: Geometry, data: seq<seq<byte>>, c: nat, i: nat)
    requires |data| == g.clusters * g.spc && 2 <= c < g.clusters + 2 && i < 512 * g.spc
    requires forall l :: 0 <= l < |data| ==> |data[l]| == 512
    ensures (c - 2) * g.spc + i / 512 < |data| && |ClusterBytes(g, data, c)| == 512 * g.spc
    ensures ClusterBytes(g, data, c)[i] == data[(c - 2) * g.spc + i / 512][i % 512]
  {
    ClusterInside(g, c);
    var base := ClusterBase(g, c);
    assert i / 512 < g.spc;
    ClusterBytesLength(g, data, c);
    FlattenByte(data[base..base + g.spc], i);
  }

  lemma {:induction false} FlattenByte(ss: seq<seq<byte>>, i: nat)
    requires (forall l :: 0 <= l < |ss| ==> |ss[l]| == 512) && i < 512 * |ss|
    ensures i < |Flatten(ss)| && Flatten(ss)[i] == ss[i / 512][i % 512]
  {
    FlattenLength(ss);
    if i >= 512 {
      FlattenByte(ss[1..], i - 512);
      assert (i - 512) / 512 == i / 512 - 1 && (i - 512) % 512 == i % 512;
    }
  }

  // ---------------------------------------------------------------- the fields of a slot

  /** A slot is free when its first byte is 0 or 0xE5; its attributes are in byte 11, with bit 3 for a volume
      label and bit 4 for a directory; first cluster and size are little-endian numbers in bytes 26 and 28. */
  lemma {:induction false} SlotFields(s: seq<byte>)
    requires |s| == 32
    ensures IsFree(s) <==> s[0] == 0x00 || s[0] == 0xE5
    ensures IsDirectory(s) <==> s[11] % 32 >= 16
    ensures Two(FirstCluster(s)) == s[26..28]
    ensures Four(Size(s)) == s[28..32]
    ensures Info(s).size == Size(s) && Info(s).cluster < TWO32 && Four(Info(s).cluster) == s[26..28] + s[20..22]
  {
    TwoOf(s, 26);
    TwoOf(s, 20);
    FourOf(s, 28);
    hide U16, Two, U32;
    var lo, hi := U16(s, 26), U16(s, 20);
    assert (hi * 0x1_0000 + lo) % 0x1_0000 == lo && (hi * 0x1_0000 + lo) / 0x1_0000 == hi;
  }

  /** The slots that are listed. */
  lemma {:induction false} ListedSlots(v: Volume, k: nat)
    requires SlotsOk(v) && k < |v.slots|
    ensures Visible(v, k) <==>
      && v.slots[k][0] != 0xE5 && v.slots[k][11] != 0x0F && v.slots[k][11] % 16 < 8
      && forall j :: k - k % 16 <= j <= k ==> v.slots[j][0] != 0
  {
    assert k / 16 * 16 == k - k % 16;
  }

  /** At most 32 of them are kept, the first ones. */
  lemma {:induction false} CacheIsFirst(v: Volume)
    requires SlotsOk(v)
    ensures var all := Listing(v, |v.slots|);
      if |all| <= 32 then Cache(v) == all else Cache(v) == all[..32]
  {
  }

  // ---------------------------------------------------------------- when a write succeeds

  /** The table entry is free, or becomes free because the replaced chain leads there. */
  ghost predicate Available(v: Volume, f: seq<byte>, x: nat)
    requires SlotsOk(v) && x < |v.table|
  {
    v.table[x] == 0 ||
    var t := Find(v, f); t.Existing? && FirstCluster(v.slots[t.k]) >= 2 && Reachable(v.table, FirstCluster(v.slots[t.k]), x)
  }

  lemma {:induction false} AvailableIs(v: Volume, f: seq<byte>, x: nat)
    requires SlotsOk(v) && x < |v.table|
    ensures Available(v, f, x) <==> TableAfterFree(v, Find(v, f))[x] == 0
  {
    hide Find;
  }

  /** `c` starts a run of `n` available clusters; the search stops two clusters before the last one. */
  ghost predicate AvailableRun(g: Geometry, v: Volume, f: seq<byte>, c: nat, n: nat)
    requires SlotsOk(v)
  {
    2 <= c && c + n <= g.clusters && c + n <= |v.table| && forall x :: c <= x < c + n ==> Available(v, f, x)
  }

  /** A write succeeds exactly when the directory has an entry of the name or a vacant slot and, unless nothing
      is to be written, enough available clusters lie side by side; for a size that wraps one is enough. */
  lemma {:induction false} WriteSucceeds(g: Geometry, v: Volume, f: seq<byte>, src: seq<byte>)
    requires ValidGeometry(g) && Shape(g, v) && |f| == 11 && |src| < TWO32
    ensures Write(g, v, f, src).code == 0 || Write(g, v, f, src).code == -1
    ensures var n := if Wraps(g, |src|) then 1 else Need(g, |src|);
      Write(g, v, f, src).code == 0 <==>
        && (exists k :: Matches(v, f, k) || Vacant(v, k))
        && (src == [] || exists c :: AvailableRun(g, v, f, c, n))
  {
    var t, n := Find(v, f), RunLength(Needed32(g, |src|));
    TargetExists(v, f);
    if !t.Full? && src != [] {
      NeededFacts(g, |src|);
      assert n == if Wraps(g, |src|) then 1 else Need(g, |src|);
      RunExists(g, v, f, n);
    }
    hide Find, Matches, Vacant, AvailableRun, FirstRun, TableAfterFree, Needed32, Need;
  }

  lemma {:induction false} TargetExists(v: Volume, f: seq<byte>)
    requires SlotsOk(v)
    ensures Find(v, f).Full? <==> !exists k :: Matches(v, f, k) || Vacant(v, k)
  {
    var t := Find(v, f);
    hide Find, Reached, Owner;
    assert t.Existing? ==> Matches(v, f, t.k);
    assert t.Fresh? ==> Vacant(v, t.k);
  }

  lemma {:induction false} RunExists(g: Geometry, v: Volume, f: seq<byte>, n: nat)
    requires ValidGeometry(g) && Shape(g, v)
    ensures g.clusters <= |TableAfterFree(v, Find(v, f))|
    ensures FirstRun(TableAfterFree(v, Find(v, f)), g.clusters, n) != 0 <==> exists c :: AvailableRun(g, v, f, c, n)
  {
    var t := TableAfterFree(v, Find(v, f));
    forall x | 0 <= x < |t|
      ensures Available(v, f, x) <==> t[x] == 0
    {
      AvailableIs(v, f, x);
    }
    hide Find, TableAfterFree, Available;
    var r := FirstRun(t, g.clusters, n);
    if r != 0 {
      assert AvailableRun(g, v, f, r, n);
    } else {
      forall c | 2 <= c && c + n <= g.clusters
        ensures !AvailableRun(g, v, f, c, n)
      {
        assert !RunFree(t, c, n);
      }
    }
  }

  // ---------------------------------------------------------------- what a write leaves behind

  /** After a successful write of an unwrapped size: `n` clusters from `c` on, the least number that holds the
      buffer, are linked one to the next, and the last one ends the chain. */
  lemma {:induction false} WrittenTable(g: Geometry, v: Volume, f: seq<byte>, src: seq<byte>, n: nat, x: nat)
    requires ValidGeometry(g) && Shape(g, v) && |f| == 11 && |src| < TWO32 && src != [] && !Wraps(g, |src|)
    requires Write(g, v, f, src).code == 0 && (n - 1) * (512 * g.spc) < |src| <= n * (512 * g.spc) && x < |v.table|
    ensures !Find(v, f).Full? && Shape(g, Write(g, v, f, src).vol)
    ensures var w := Write(g, v, f, src).vol;
      var c := FirstCluster(w.slots[Find(v, f).k]);
      && 2 <= c && c + n <= g.clusters
      && (c <= x < c + n ==> Available(v, f, x) && w.table[x] == (if x == c + n - 1 then 0xFFFF else x + 1))
      && (!(c <= x < c + n) ==> w.table[x] == (if Available(v, f, x) then 0 else v.table[x]))
  {
    WriteShape(g, v, f, src);
    NeededFacts(g, |src|);
    NeedIs(g, |src|, n);
    AvailableIs(v, f, x);
    hide Find, TableAfterFree, Available, Needed32, Need, Wraps;
    var table, c := TableAfterFree(v, Find(v, f)), RunFor(g, v, Find(v, f), |src|);
    assert RunFree(table, c, n);
  }

  lemma {:induction false} NeedIs(g: Geometry, size: nat, n: nat)
    requires g.spc > 0 && (n - 1) * (512 * g.spc) < size <= n * (512 * g.spc)
    ensures Need(g, size) == n
  {
    NeedCovers(g, size);
    var m, k := Need(g, size), ClusterSize(g);
    hide Need;
    if m < n {
      MulMono(m, n - 1, k);
    } else if m > n {
      MulMono(n, m - 1, k);
    }
  }

  /** The bytes of the buffer fill the data sectors from the first one of cluster `c` on, zeroes fill up the last
      sector, and every other data sector is as it was. */
  lemma {:induction false} WrittenData(g: Geometry, v: Volume, f: seq<byte>, src: seq<byte>, l: nat, i: nat)
    requires ValidGeometry(g) && Shape(g, v) && |f| == 11 && |src| < TWO32 && src != [] && !Wraps(g, |src|)
    requires Write(g, v, f, src).code == 0 && l < |v.data| && i < 512
    ensures !Find(v, f).Full? && Shape(g, Write(g, v, f, src).vol)
    ensures var w := Write(g, v, f, src).vol;
      var first := (FirstCluster(w.slots[Find(v, f).k]) - 2) * g.spc;
      && 0 <= first
      && (first <= l && 512 * (l - first) < |src| ==>
            w.data[l][i] == if 512 * (l - first) + i < |src| then src[512 * (l - first) + i] else 0)
      && (l < first || 512 * (l - first) >= |src| ==> w.data[l] == v.data[l])
  {
    WriteShape(g, v, f, src);
    DataAfter(g, v, f, src);
    var c := FirstCluster(Write(g, v, f, src).vol.slots[Find(v, f).k]);
    FirstSector(g, c);
    hide Find, Write, Wraps, PutSectors, FirstCluster;
    PutAt(v.data, ClusterBase(g, c), src, l, i);
  }

  lemma {:induction false} DataAfter(g: Geometry, v: Volume, f: seq<byte>, src: seq<byte>)
    requires ValidGeometry(g) && Shape(g, v) && |f| == 11 && |src| < TWO32 && src != [] && !Wraps(g, |src|)
    requires Write(g, v, f, src).code == 0
    ensures !Find(v, f).Full? && |Write(g, v, f, src).vol.slots| == |v.slots| && |Write(g, v, f, src).vol.slots[Find(v, f).k]| == 32
    ensures var w := Write(g, v, f, src).vol;
      var c := FirstCluster(w.slots[Find(v, f).k]);
      2 <= c && w.data == PutSectors(v.data, ClusterBase(g, c), src, SectorCount(|src|))
  {
    NeededFacts(g, |src|);
    NeedSectors(g, |src|);
    hide Find, TableAfterFree, Needed32, Need, Wraps, LinkRun, PutSectors;
  }

  lemma {:induction false} PutAt(data: seq<seq<byte>>, first: nat, src: seq<byte>, l: nat, i: nat)
    requires l < |data| && i < 512
    ensures var w := PutSectors(data, first, src, SectorCount(|src|));
      && (first <= l && 512 * (l - first) < |src| ==>
            |w[l]| == 512 && w[l][i] == if 512 * (l - first) + i < |src| then src[512 * (l - first) + i] else 0)
      && (l < first || 512 * (l - first) >= |src| ==> w[l] == data[l])
  {
    if first <= l && 512 * (l - first) < |src| {
      assert l - first < SectorCount(|src|);
      SectorByte(src, l - first, i);
    }
  }

  lemma {:induction false} SectorByte(src: seq<byte>, k: nat, i: nat)
    requires 512 * k < |src| && i < 512
    ensures SectorOf(src, k)[i] == if 512 * k + i < |src| then src[512 * k + i] else 0
  {
  }

  lemma {:induction false} FirstSector(g: Geometry, c: nat)
    requires 2 <= c
    ensures 0 <= (c - 2) * g.spc == ClusterBase(g, c)
  {
  }

  /** A slot that is written to: name, the archive attribute, first cluster, size, and eight bytes that stay. */
  predicate SlotWritten(s: seq<byte>, w: seq<byte>, f: seq<byte>, cluster: nat, size: nat)
    requires |s| == |w| == 32 && cluster < 0x1_0000 && size < TWO32
  {
    && w[..11] == f && w[11] == 0x20 && w[20..22] == [0, 0] && w[26..28] == Two(cluster) && w[28..32] == Four(size)
    && w[12..20] == s[12..20] && w[22..26] == s[22..26]
  }

  lemma {:induction false} PutSlotWrites(s: seq<byte>, f: seq<byte>, cluster: nat, size: nat)
    requires |s| == 32 && |f| == 11 && cluster < 0x1_0000 && size < TWO32
    ensures SlotWritten(s, PutSlot(s, f, cluster, size), f, cluster, size)
  {
    var w := PutSlot(s, f, cluster, size);
    TwoOf(w, 20);
    TwoOf(w, 26);
    FourOf(w, 28);
    hide PutSlot, U16, U32, Four;
    assert Two(0) == [0, 0];
  }

  /** Only the slot of the name changes. An empty file has no cluster. */
  lemma {:induction false} WrittenSlot(g: Geometry, v: Volume, f: seq<byte>, src: seq<byte>)
    requires ValidGeometry(g) && Shape(g, v) && |f| == 11 && |src| < TWO32 && Write(g, v, f, src).code == 0
    ensures !Find(v, f).Full? && |Write(g, v, f, src).vol.slots| == |v.slots|
    ensures var k, slots := Find(v, f).k, Write(g, v, f, src).vol.slots;
      && |slots[k]| == 32 && SlotWritten(v.slots[k], slots[k], f, FirstCluster(slots[k]), |src|)
      && slots == v.slots[k := slots[k]] && (FirstCluster(slots[k]) == 0 <==> src == [])
  {
    hide Find, TableAfterFree, Needed32, LinkRun, PutSectors, PutSlot, SlotWritten;
    var t := Find(v, f);
    if src != [] {
      NeededFacts(g, |src|);
    }
    var c := if src == [] then 0 else RunFor(g, v, t, |src|);
    PutSlotWrites(v.slots[t.k], f, c, |src|);
  }

  /** A write that fails leaves directory and data alone. The table stays too when the directory is full;
      otherwise the replaced chain is gone. */
  lemma {:induction false} FailedWrite(g: Geometry, v: Volume, f: seq<byte>, src: seq<byte>, x: nat)
    requires ValidGeometry(g) && Shape(g, v) && |f| == 11 && |src| < TWO32
    requires Write(g, v, f, src).code != 0 && x < |v.table|
    ensures var w := Write(g, v, f, src).vol;
      && w.slots == v.slots && w.data == v.data && |w.table| == |v.table|
      && w.table[x] == if Available(v, f, x) then 0 else v.table[x]
  {
    AvailableIs(v, f, x);
    hide Find, TableAfterFree, Needed32, Available;
  }
}
