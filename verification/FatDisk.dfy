/** The on-disk layout: how the sectors of a device make up a FAT16 volume, and what patching one FAT
    entry, one directory slot or one data sector does to it. */
module FatDisk {
  import opened Arithmetic
  import opened Bytes
  import opened FatVolume

  function RootStart(g: Geometry): nat {
    g.reserved + g.numFats * g.fatSize
  }

  function DataStart(g: Geometry): nat {
    RootStart(g) + g.rootSectors
  }

  function DataEnd(g: Geometry): nat {
    DataStart(g) + g.clusters * g.spc
  }

  /** `fat_cluster_to_lba` */
  function ClusterToLba(g: Geometry, c: nat): nat
    requires 2 <= c
  {
    DataStart(g) + ClusterBase(g, c)
  }

  /** A device of 512-byte sectors that holds the whole volume; sector numbers fit 32 bits. */
  ghost predicate OnDisk(g: Geometry, d: seq<seq<byte>>) {
    && ValidGeometry(g)
    && DataEnd(g) <= |d| && DataEnd(g) < TWO32
    && forall l :: 0 <= l < |d| ==> |d[l]| == 512
  }

  lemma {:induction false} RegionsApart(g: Geometry)
    requires 1 <= g.numFats
    ensures g.reserved + g.fatSize <= RootStart(g) <= DataStart(g) <= DataEnd(g)
  {
    MulStep(g.numFats, g.fatSize);
  }

  function Entry(g: Geometry, d: seq<seq<byte>>, c: nat): nat
    requires c < 256 * g.fatSize && g.reserved + g.fatSize <= |d|
    requires forall l :: 0 <= l < |d| ==> |d[l]| == 512
  {
    U16(d[g.reserved + c / 256], 2 * (c % 256))
  }

  function SlotAt(g: Geometry, d: seq<seq<byte>>, k: nat): seq<byte>
    requires k < 16 * g.rootSectors && DataStart(g) <= |d|
    requires forall l :: 0 <= l < |d| ==> |d[l]| == 512
  {
    d[RootStart(g) + k / 16][k % 16 * 32..k % 16 * 32 + 32]
  }

  /** The volume on a device. */
  ghost function View(g: Geometry, d: seq<seq<byte>>): (v: Volume)
    requires OnDisk(g, d)
    ensures Shape(g, v)
  {
    RegionsApart(g);
    Volume(seq(256 * g.fatSize, c requires 0 <= c < 256 * g.fatSize => Entry(g, d, c)),
           seq(16 * g.rootSectors, k requires 0 <= k < 16 * g.rootSectors => SlotAt(g, d, k)),
           d[DataStart(g)..DataEnd(g)])
  }

  lemma {:induction false} ViewEntry(g: Geometry, d: seq<seq<byte>>, c: nat)
    requires OnDisk(g, d) && c < 256 * g.fatSize
    ensures |View(g, d).table| == 256 * g.fatSize && g.reserved + c / 256 < |d|
    ensures View(g, d).table[c] == U16(d[g.reserved + c / 256], 2 * (c % 256))
  {
    RegionsApart(g);
  }

  lemma {:induction false} ViewSlot(g: Geometry, d: seq<seq<byte>>, k: nat)
    requires OnDisk(g, d) && k < 16 * g.rootSectors
    ensures |View(g, d).slots| == 16 * g.rootSectors && RootStart(g) + k / 16 < DataStart(g) <= |d|
    ensures View(g, d).slots[k] == d[RootStart(g) + k / 16][k % 16 * 32..k % 16 * 32 + 32]
  {
    RegionsApart(g);
  }

  /** Entry `e` of directory sector `i`. */
  lemma {:induction false} ViewDirEntry(g: Geometry, d: seq<seq<byte>>, i: nat, e: nat)
    requires OnDisk(g, d) && i < g.rootSectors && e < 16
    ensures |View(g, d).slots| == 16 * g.rootSectors && 16 * i + e < 16 * g.rootSectors
    ensures RootStart(g) + i < |d| && |d[RootStart(g) + i]| == 512
    ensures View(g, d).slots[16 * i + e] == d[RootStart(g) + i][e * 32..e * 32 + 32]
  {
    hide View;
    assert (16 * i + e) / 16 == i && (16 * i + e) % 16 == e;
    ViewSlot(g, d, 16 * i + e);
  }

  lemma {:induction false} ViewData(g: Geometry, d: seq<seq<byte>>, l: nat)
    requires OnDisk(g, d) && l < g.clusters * g.spc
    ensures |View(g, d).data| == g.clusters * g.spc && DataStart(g) + l < |d|
    ensures View(g, d).data[l] == d[DataStart(g) + l] && |d[DataStart(g) + l]| == 512
  {
    RegionsApart(g);
  }

  /** Only the first FAT, the root directory and the data clusters may differ. */
  ghost predicate SameOutside(g: Geometry, d: seq<seq<byte>>, d': seq<seq<byte>>) {
    && |d'| == |d|
    && forall l :: 0 <= l < |d| && (l < g.reserved || g.reserved + g.fatSize <= l < RootStart(g) || DataEnd(g) <= l) ==>
         d'[l] == d[l]
  }

  lemma {:induction false} SameOutsideItself(g: Geometry, d: seq<seq<byte>>)
    ensures SameOutside(g, d, d)
  {
  }

  lemma {:induction false} SameOutsideTwice(g: Geometry, a: seq<seq<byte>>, b: seq<seq<byte>>, c: seq<seq<byte>>)
    requires SameOutside(g, a, b) && SameOutside(g, b, c)
    ensures SameOutside(g, a, c) && |a| == |b| == |c|
  {
  }

  lemma {:induction false} EntryAddress(c: nat)
    ensures c * 2 / 512 == c / 256 && c * 2 % 512 == 2 * (c % 256)
  {
  }

  lemma {:induction false} PatchEntryAt(g: Geometry, d: seq<seq<byte>>, c: nat, val: nat, x: nat)
    requires OnDisk(g, d) && c < 256 * g.fatSize && x < 256 * g.fatSize && val < 0x1_0000
    ensures g.reserved + c / 256 < g.reserved + g.fatSize <= |d|
    ensures var l := g.reserved + c / 256;
      Entry(g, d[l := PutU16(d[l], 2 * (c % 256), val)], x) == (if x == c then val else Entry(g, d, x))
  {
    RegionsApart(g);
  }

  /** Writing a FAT entry changes that entry and nothing else. */
  lemma {:induction false} PatchEntry(g: Geometry, d: seq<seq<byte>>, c: nat, val: nat)
    requires OnDisk(g, d) && c < 256 * g.fatSize && val < 0x1_0000
    ensures g.reserved + c / 256 < |d|
    ensures var l := g.reserved + c / 256;
      var d' := d[l := PutU16(d[l], 2 * (c % 256), val)];
      OnDisk(g, d') && SameOutside(g, d, d') && View(g, d') == View(g, d).(table := View(g, d).table[c := val])
  {
    RegionsApart(g);
    var l := g.reserved + c / 256;
    var d' := d[l := PutU16(d[l], 2 * (c % 256), val)];
    var v, v' := View(g, d), View(g, d');
    forall x | 0 <= x < |v.table|
      ensures v'.table[x] == v.table[c := val][x]
    {
      PatchEntryAt(g, d, c, val, x);
    }
    assert v'.table == v.table[c := val];
    assert forall k :: 0 <= k < |v.slots| ==> v'.slots[k] == SlotAt(g, d', k) == v.slots[k];
    assert v'.data == v.data;
  }

  /** Writing a data sector changes that sector and nothing else. */
  lemma {:induction false} PatchData(g: Geometry, d: seq<seq<byte>>, l: nat, s: seq<byte>)
    requires OnDisk(g, d) && l < g.clusters * g.spc && |s| == 512
    ensures var d' := d[DataStart(g) + l := s];
      OnDisk(g, d') && SameOutside(g, d, d') && View(g, d') == View(g, d).(data := View(g, d).data[l := s])
  {
    RegionsApart(g);
    var d' := d[DataStart(g) + l := s];
    var v, v' := View(g, d), View(g, d');
    assert forall x :: 0 <= x < |v.table| ==> v'.table[x] == Entry(g, d', x) == v.table[x];
    assert forall k :: 0 <= k < |v.slots| ==> v'.slots[k] == SlotAt(g, d', k) == v.slots[k];
    assert v'.data == v.data[l := s];
  }

  /** A sector with the 32 bytes at `o` replaced. */
  function Splice(s: seq<byte>, o: nat, ent: seq<byte>): (r: seq<byte>)
    requires o + 32 <= |s| && |ent| == 32
    ensures |r| == |s|
  {
    s[..o] + ent + s[o + 32..]
  }

  lemma {:induction false} SpliceSlots(s: seq<byte>, e: nat, x: nat, ent: seq<byte>)
    requires |s| == 512 && e < 16 && x < 16 && |ent| == 32
    ensures Splice(s, e * 32, ent)[x * 32..x * 32 + 32] == (if x == e then ent else s[x * 32..x * 32 + 32])
  {
    if x < e {
      assert x * 32 + 32 <= e * 32;
    } else if x > e {
      assert x * 32 >= e * 32 + 32;
    }
  }

  lemma {:induction false} PatchSlotAt(g: Geometry, d: seq<seq<byte>>, k: nat, ent: seq<byte>, x: nat)
    requires OnDisk(g, d) && k < 16 * g.rootSectors && x < 16 * g.rootSectors && |ent| == 32
    ensures RootStart(g) + k / 16 < DataStart(g) <= |d|
    ensures var l := RootStart(g) + k / 16;
      SlotAt(g, d[l := Splice(d[l], k % 16 * 32, ent)], x) == (if x == k then ent else SlotAt(g, d, x))
  {
    RegionsApart(g);
    if x / 16 == k / 16 {
      SpliceSlots(d[RootStart(g) + k / 16], k % 16, x % 16, ent);
      SameSlot(x, k);
    }
  }

  /** Rewriting a directory sector around one slot changes that slot and nothing else. */
  lemma {:induction false} PatchSlot(g: Geometry, d: seq<seq<byte>>, k: nat, ent: seq<byte>)
    requires OnDisk(g, d) && k < 16 * g.rootSectors && |ent| == 32
    ensures RootStart(g) + k / 16 < |d|
    ensures var l := RootStart(g) + k / 16;
      var d' := d[l := Splice(d[l], k % 16 * 32, ent)];
      OnDisk(g, d') && SameOutside(g, d, d') && View(g, d') == View(g, d).(slots := View(g, d).slots[k := ent])
  {
    RegionsApart(g);
    var l := RootStart(g) + k / 16;
    var d' := d[l := Splice(d[l], k % 16 * 32, ent)];
    var v, v' := View(g, d), View(g, d');
    DirSectorOnly(g, d, k / 16, Splice(d[l], k % 16 * 32, ent));
    forall x | 0 <= x < |v.slots|
      ensures v'.slots[x] == v.slots[k := ent][x]
    {
      PatchSlotAt(g, d, k, ent, x);
      ViewSlots(g, d, x);
      ViewSlots(g, d', x);
    }
    hide View, SlotAt, Splice;
    assert v'.slots == v.slots[k := ent];
  }

  lemma {:induction false} ViewSlots(g: Geometry, d: seq<seq<byte>>, x: nat)
    requires OnDisk(g, d) && x < 16 * g.rootSectors
    ensures |View(g, d).slots| == 16 * g.rootSectors && View(g, d).slots[x] == SlotAt(g, d, x)
  {
  }

  /** Writing a directory sector changes neither the table nor the data. */
  lemma {:induction false} DirSectorOnly(g: Geometry, d: seq<seq<byte>>, i: nat, s: seq<byte>)
    requires OnDisk(g, d) && i < g.rootSectors && |s| == 512 && RootStart(g) + i < |d|
    ensures var d' := d[RootStart(g) + i := s];
      && OnDisk(g, d') && SameOutside(g, d, d')
      && View(g, d').table == View(g, d).table && View(g, d').data == View(g, d).data
      && |View(g, d').slots| == |View(g, d).slots| == 16 * g.rootSectors
  {
    RegionsApart(g);
    var d' := d[RootStart(g) + i := s];
    var v, v' := View(g, d), View(g, d');
    assert forall x :: 0 <= x < |v.table| ==> v'.table[x] == Entry(g, d', x) == v.table[x];
    assert v'.data == v.data;
  }

  lemma {:induction false} SameSlot(x: nat, k: nat)
    requires x / 16 == k / 16
    ensures x % 16 == k % 16 <==> x == k
  {
  }

  /** The view forgets nothing: it and the sectors outside it determine the device. */
  lemma {:induction false} ViewDeterminesDisk(g: Geometry, d: seq<seq<byte>>, d': seq<seq<byte>>)
    requires OnDisk(g, d) && OnDisk(g, d') && SameOutside(g, d, d') && View(g, d) == View(g, d')
    ensures d == d'
  {
    RegionsApart(g);
    var v, v' := View(g, d), View(g, d');
    forall l, i | 0 <= l < |d| && 0 <= i < 512
      ensures d[l][i] == d'[l][i]
    {
      if g.reserved <= l < g.reserved + g.fatSize {
        var c := (l - g.reserved) * 256 + i / 2;
        assert c / 256 == l - g.reserved && c % 256 == i / 2;
        assert Entry(g, d, c) == v.table[c] == v'.table[c] == Entry(g, d', c);
        U16Injective(d[l], d'[l], 2 * (c % 256));
      } else if RootStart(g) <= l < DataStart(g) {
        var k := (l - RootStart(g)) * 16 + i / 32;
        assert k / 16 == l - RootStart(g) && k % 16 == i / 32;
        assert SlotAt(g, d, k) == v.slots[k] == v'.slots[k] == SlotAt(g, d', k);
        assert SlotAt(g, d, k)[i % 32] == SlotAt(g, d', k)[i % 32];
      } else if DataStart(g) <= l < DataEnd(g) {
        assert v.data[l - DataStart(g)] == d[l] && v'.data[l - DataStart(g)] == d'[l];
      }
    }
    assert forall l :: 0 <= l < |d| ==> d[l] == d'[l];
  }

  /** Cluster sectors are numbered without overlap, inside the data region, which lies behind the FATs
      and the root directory. */
  lemma {:induction false} ClusterSectorsInjective(g: Geometry, c: nat, s: nat, c': nat, s': nat)
    requires ValidGeometry(g)
    requires 2 <= c < g.clusters + 2 && 2 <= c' < g.clusters + 2 && s < g.spc && s' < g.spc
    ensures g.reserved + g.fatSize <= RootStart(g) && DataStart(g) <= ClusterToLba(g, c) + s < DataEnd(g)
    ensures ClusterToLba(g, c) + s == ClusterToLba(g, c') + s' <==> c == c' && s == s'
  {
    RegionsApart(g);
    ClusterInside(g, c);
    ClusterOrder(g, c', 0, c);
    ClusterOrder(g, c, 0, c');
  }
}
