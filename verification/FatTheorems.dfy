/** What `fat_write_file` does to a FAT16 volume, for every name, every contents and every geometry. */
module FatTheorems {
  import opened Arithmetic
  import opened Sequences
  import opened Bytes
  import opened FatTable
  import opened FatNames
  import opened FatNameBytes
  import opened FatVolume

  // ---------------------------------------------------------------- what a write leaves alone

  /** Any volume, well-formed or not: a cluster that is in use and is not reached from the entry being
      replaced keeps its table entry and its data. This covers files inside subdirectories too. */
  lemma {:induction false} UsedClusterUntouched(g: Geometry, v: Volume, f: seq<byte>, src: seq<byte>, x: nat)
    requires ValidGeometry(g) && Shape(g, v) && |f| == 11 && |src| < TWO32
    requires 2 <= x < g.clusters + 2 && v.table[x] != 0
    requires var t := Find(v, f); t.Existing? ==> !Reachable(v.table, FirstCluster(v.slots[t.k]), x)
    ensures var w := Write(g, v, f, src).vol;
      && |w.table| == |v.table| && w.table[x] == v.table[x]
      && |w.data| == |v.data| && ClusterBytes(g, w.data, x) == ClusterBytes(g, v.data, x)
  {
    var t := Find(v, f);
    if !t.Full? {
      var table := TableAfterFree(v, t);
      assert table[x] == v.table[x];
      if src != [] {
        var n, c := Needed32(g, |src|), RunFor(g, v, t, |src|);
        if c != 0 {
          assert RunFree(table, c, RunLength(n));
          assert !(c <= x < c + RunLength(n));
          hide TableAfterFree, Find, PutSectors, ClusterBytes, RunFor;
          OtherClusterData(g, v.data, c, n, x, src);
        }
      }
    }
  }

  lemma {:induction false} OtherClusterData(g: Geometry, data: seq<seq<byte>>, c: nat, n: nat, x: nat, src: seq<byte>)
    requires g.spc > 0 && |data| == g.clusters * g.spc && 2 <= c && 2 <= x < g.clusters + 2 && !(c <= x < c + RunLength(n))
    ensures ClusterBytes(g, PutSectors(data, ClusterBase(g, c), src, Written(g, |src|, n)), x) == ClusterBytes(g, data, x)
  {
    ClusterOrder(g, c, RunLength(n), x);
    ClusterInside(g, x);
    var data' := PutSectors(data, ClusterBase(g, c), src, Written(g, |src|, n));
    var b := ClusterBase(g, x);
    assert forall l :: b <= l < b + g.spc ==> data'[l] == data[l];
    hide PutSectors, Flatten, ClusterBase;
    SameSlice(data, data', b, b + g.spc);
  }

  /** The write keeps the shape and touches one slot at most. */
  lemma {:induction false} WriteShape(g: Geometry, v: Volume, f: seq<byte>, src: seq<byte>)
    requires ValidGeometry(g) && Shape(g, v) && |f| == 11 && |src| < TWO32
    ensures Shape(g, Write(g, v, f, src).vol)
    ensures var t, o := Find(v, f), Write(g, v, f, src);
      && (o.code == 0 || o.code == -1)
      && (o.code == 0 ==> !t.Full? && |o.vol.slots[t.k]| == 32 && o.vol.slots[t.k][..11] == f && o.vol.slots[t.k][11] == 0x20)
      && (forall j :: 0 <= j < |v.slots| && (o.code != 0 || j != t.k) ==> o.vol.slots[j] == v.slots[j])
  {
    var t := Find(v, f);
    if !t.Full? && src != [] {
      var n, c := Needed32(g, |src|), RunFor(g, v, t, |src|);
      if c != 0 {
        PutSectorsShape(v.data, ClusterBase(g, c), src, Written(g, |src|, n));
      }
    }
  }

  lemma {:induction false} PutSectorsShape(data: seq<seq<byte>>, base: nat, src: seq<byte>, m: nat)
    requires m <= SectorCount(|src|)
    requires forall l :: 0 <= l < |data| ==> |data[l]| == 512
    ensures forall l :: 0 <= l < |data| ==> |PutSectors(data, base, src, m)[l]| == 512
  {
    forall l | 0 <= l < |data|
      ensures |PutSectors(data, base, src, m)[l]| == 512
    {
      if base <= l < base + m {
        assert |SectorOf(src, l - base)| == 512;
      }
    }
  }

  lemma {:induction false} SectorOfSlot(j: nat, k: nat)
    ensures k / 16 * 16 <= j < k ==> j / 16 == k / 16
    ensures j < k && j / 16 == k / 16 ==> k / 16 * 16 <= j
  {
  }

  /** Replacing the target slot changes nobody else's status in the directory. */
  lemma {:induction false} DirectoryFrame(v: Volume, w: Volume, f: seq<byte>, j: nat)
    requires |w.slots| == |v.slots|
    requires forall i :: 0 <= i < |v.slots| ==> |v.slots[i]| == |w.slots[i]| == 32
    requires CleanTail(v) && !Find(v, f).Full?
    requires |f| == 11 && f[0] != 0
    requires w.slots[Find(v, f).k][..11] == f
    requires forall i :: 0 <= i < |v.slots| && i != Find(v, f).k ==> w.slots[i] == v.slots[i]
    requires j < |v.slots|
    ensures j != Find(v, f).k ==> (Owner(w, j) <==> Owner(v, j)) && (Visible(w, j) <==> Visible(v, j))
    ensures j == Find(v, f).k ==> Reached(w, j)
  {
    var k := Find(v, f).k;
    assert w.slots[k][0] == w.slots[k][..11][0] == f[0];
    if j == k {
      assert Reached(v, k);
    } else if k < j && k / 16 == j / 16 && v.slots[k][0] == 0 {
      SectorOfSlot(k, j);
      assert IsFree(v.slots[j]);
    } else {
      SectorOfSlot(k, j);
      assert Reached(w, j) <==> Reached(v, j);
    }
  }

  lemma {:induction false} CleanTailKept(v: Volume, w: Volume, f: seq<byte>)
    requires |w.slots| == |v.slots|
    requires forall i :: 0 <= i < |v.slots| ==> |v.slots[i]| == |w.slots[i]| == 32
    requires CleanTail(v) && !Find(v, f).Full?
    requires |f| == 11 && f[0] != 0
    requires w.slots[Find(v, f).k][..11] == f
    requires forall i :: 0 <= i < |v.slots| && i != Find(v, f).k ==> w.slots[i] == v.slots[i]
    ensures CleanTail(w)
  {
    var k := Find(v, f).k;
    assert w.slots[k][0] == w.slots[k][..11][0] == f[0];
    assert Reached(v, k);
    forall i | 0 <= i < k && i / 16 == k / 16
      ensures v.slots[i][0] != 0
    {
      SectorOfSlot(i, k);
    }
  }

  lemma {:induction false} ContentFrame(g: Geometry, data: seq<seq<byte>>, data': seq<seq<byte>>, chain: seq<nat>)
    requires |data| == |data'| == g.clusters * g.spc && Clusters(g, chain)
    requires forall x :: x in chain ==> 2 <= x < g.clusters + 2 && ClusterBytes(g, data', x) == ClusterBytes(g, data, x)
    ensures ContentOf(g, data', chain) == ContentOf(g, data, chain)
  {
    if chain != [] {
      assert chain[0] in chain;
      assert forall x :: x in chain[1..] ==> x in chain;
      ContentFrame(g, data, data', chain[1..]);
    }
  }

  /** Following the links from `start` meets no cluster of the chain. */
  ghost predicate LeadsPast(t: seq<nat>, start: nat, chain: seq<nat>) {
    forall x :: x in chain ==> !Reachable(t, start, x)
  }

  /** The file is whole, and no other entry's links lead into it. The rest of the volume may be in any
      state. */
  ghost predicate Protected(g: Geometry, v: Volume, j: nat)
    requires ValidGeometry(g) && Shape(g, v)
  {
    && CleanTail(v) && Owner(v, j) && SlotOk(g, v, j)
    && forall k :: 0 <= k < |v.slots| && k != j && Owner(v, k) ==>
         LeadsPast(v.table, FirstCluster(v.slots[k]), SlotChain(g, v, j))
  }

  /** On a well-formed volume every file is protected. */
  lemma {:induction false} WellFormedProtects(g: Geometry, v: Volume, j: nat)
    requires ValidGeometry(g) && WellFormed(g, v) && Owner(v, j)
    ensures Protected(g, v, j)
  {
    forall k | 0 <= k < |v.slots| && k != j && Owner(v, k)
      ensures LeadsPast(v.table, FirstCluster(v.slots[k]), SlotChain(g, v, j))
    {
      assert SlotOk(g, v, k);
      forall x | x in SlotChain(g, v, j)
        ensures !Reachable(v.table, FirstCluster(v.slots[k]), x)
      {
        ChainIsReachable(v.table, g.clusters + 2, FirstCluster(v.slots[k]), Length(g, v, k), x);
        if k < j {
          assert Disjoint(SlotChain(g, v, k), SlotChain(g, v, j));
        } else {
          assert Disjoint(SlotChain(g, v, j), SlotChain(g, v, k));
        }
      }
    }
  }

  /** The file is whole, it is not the one this name stands for, and the entry this name stands for, if
      any, does not lead into it. */
  ghost predicate Spares(g: Geometry, v: Volume, j: nat, f: seq<byte>)
    requires ValidGeometry(g) && Shape(g, v) && |f| == 11
  {
    var t := Find(v, f);
    && CleanTail(v) && Owner(v, j) && SlotOk(g, v, j)
    && (!t.Full? ==> t.k != j)
    && (t.Existing? ==> LeadsPast(v.table, FirstCluster(v.slots[t.k]), SlotChain(g, v, j)))
  }

  lemma {:induction false} ProtectedIsSpared(g: Geometry, v: Volume, j: nat, f: seq<byte>)
    requires ValidGeometry(g) && Shape(g, v) && Protected(g, v, j) && |f| == 11 && (Find(v, f).Full? || Find(v, f).k != j)
    ensures Spares(g, v, j, f)
  {
    var t := Find(v, f);
    assert t.Existing? ==> Owner(v, t.k);
    hide Find, LeadsPast, CleanTail, SlotOk;
  }

  /** The clusters of a spared file are untouched, whatever the outcome of the write. */
  lemma {:induction false} SparedCluster(g: Geometry, v: Volume, f: seq<byte>, src: seq<byte>, j: nat, x: nat)
    requires ValidGeometry(g) && Shape(g, v) && |f| == 11 && |src| < TWO32 && Spares(g, v, j, f)
    requires x in SlotChain(g, v, j)
    ensures 2 <= x < g.clusters + 2 && v.table[x] != 0
    ensures var t := Find(v, f); t.Existing? ==> !Reachable(v.table, FirstCluster(v.slots[t.k]), x)
    ensures var w := Write(g, v, f, src).vol;
      && |w.table| == |v.table| && w.table[x] == v.table[x]
      && |w.data| == |v.data| && ClusterBytes(g, w.data, x) == ClusterBytes(g, v.data, x)
  {
    ChainBounds(v.table, g.clusters + 2, FirstCluster(v.slots[j]), Length(g, v, j));
    hide Write, Find, Reachable;
    UsedClusterUntouched(g, v, f, src, x);
  }

  /** A spared file keeps its entry, its clusters and its bytes, on any volume, whether the write succeeds,
      fails, or mangles its own file. */
  lemma {:induction false} SparedUntouched(g: Geometry, v: Volume, f: seq<byte>, src: seq<byte>, j: nat)
    requires ValidGeometry(g) && Shape(g, v) && |f| == 11 && f[0] != 0 && |src| < TWO32 && Spares(g, v, j, f)
    ensures var w := Write(g, v, f, src).vol;
      && Shape(g, w) && CleanTail(w) && Owner(w, j) && w.slots[j] == v.slots[j]
      && SlotOk(g, w, j) && Length(g, w, j) == Length(g, v, j) && SlotChain(g, w, j) == SlotChain(g, v, j)
      && FileBytes(g, w, j) == FileBytes(g, v, j)
  {
    var w := Write(g, v, f, src).vol;
    hide Write, Find, Reachable, ClusterBytes, CleanTail, Owner, LeadsPast, SlotOk, FileBytes, Length;
    WriteShape(g, v, f, src);
    EntryUntouched(g, v, f, src, j);
    var chain := SlotChain(g, v, j);
    forall x | x in chain
      ensures 2 <= x < g.clusters + 2 && w.table[x] == v.table[x] && ClusterBytes(g, w.data, x) == ClusterBytes(g, v.data, x)
    {
      SparedCluster(g, v, f, src, j, x);
    }
    hide SlotChain;
    SameFile(g, v, w, j);
  }

  /** A file whose entry and clusters are the same has the same chain and bytes. */
  lemma {:induction false} SameFile(g: Geometry, v: Volume, w: Volume, j: nat)
    requires ValidGeometry(g) && Shape(g, v) && Shape(g, w) && j < |v.slots| && w.slots[j] == v.slots[j] && SlotOk(g, v, j)
    requires forall x :: x in SlotChain(g, v, j) ==>
      2 <= x < g.clusters + 2 && w.table[x] == v.table[x] && ClusterBytes(g, w.data, x) == ClusterBytes(g, v.data, x)
    ensures SlotOk(g, w, j) && Length(g, w, j) == Length(g, v, j) && SlotChain(g, w, j) == SlotChain(g, v, j)
    ensures FileBytes(g, w, j) == FileBytes(g, v, j)
  {
    hide ClusterBytes, ContentOf, EndLength, Need, Chain, ChainOk;
    ChainFrame(v.table, w.table, g.clusters + 2, FirstCluster(v.slots[j]), Length(g, v, j));
    LengthIs(g, w, j, Length(g, v, j));
    SlotChainClusters(g, v, j);
    ContentFrame(g, v.data, w.data, SlotChain(g, v, j));
  }

  /** The directory side: the entry stays, and so does the rule about end markers. */
  lemma {:induction false} EntryUntouched(g: Geometry, v: Volume, f: seq<byte>, src: seq<byte>, j: nat)
    requires ValidGeometry(g) && Shape(g, v) && CleanTail(v) && Owner(v, j) && |f| == 11 && f[0] != 0 && |src| < TWO32
    requires Find(v, f).Full? || j != Find(v, f).k
    ensures var w := Write(g, v, f, src).vol;
      Shape(g, w) && CleanTail(w) && Owner(w, j) && w.slots[j] == v.slots[j]
  {
    var w := Write(g, v, f, src).vol;
    WriteShape(g, v, f, src);
    hide Write;
    if Write(g, v, f, src).code == 0 {
      DirectoryFrame(v, w, f, j);
      CleanTailKept(v, w, f);
    } else {
      assert w.slots == v.slots;
      assert Reached(w, j);
    }
  }

  /** On a well-formed volume this goes for every other file. */
  lemma {:induction false} OtherFilesUntouched(g: Geometry, v: Volume, f: seq<byte>, src: seq<byte>, j: nat)
    requires ValidGeometry(g) && WellFormed(g, v) && |f| == 11 && f[0] != 0 && |src| < TWO32
    requires j < |v.slots| && Owner(v, j) && (Find(v, f).Full? || j != Find(v, f).k)
    ensures var w := Write(g, v, f, src).vol;
      && Shape(g, w) && Owner(w, j) && w.slots[j] == v.slots[j]
      && SlotOk(g, w, j) && Length(g, w, j) == Length(g, v, j) && SlotChain(g, w, j) == SlotChain(g, v, j)
      && FileBytes(g, w, j) == FileBytes(g, v, j)
  {
    WellFormedProtects(g, v, j);
    ProtectedIsSpared(g, v, j, f);
    hide WellFormed, Protected, Write, Find, Spares;
    SparedUntouched(g, v, f, src, j);
  }

  // ---------------------------------------------------------------- what a write stores

  lemma {:induction false} SectorOfTail(src: seq<byte>, i: nat)
    requires 512 < |src| && 512 * i < |src| - 512
    ensures SectorOf(src[512..], i) == SectorOf(src, i + 1)
  {
  }

  /** Sectors cut from a buffer flatten back to the buffer. */
  lemma {:induction false} FlattenSectors(d: seq<seq<byte>>, src: seq<byte>)
    requires SectorCount(|src|) <= |d|
    requires forall i :: 0 <= i < SectorCount(|src|) ==> d[i] == SectorOf(src, i)
    ensures |src| <= |Flatten(d)| && Flatten(d)[..|src|] == src
  {
    if src != [] {
      assert d[0] == SectorOf(src, 0);
      if |src| > 512 {
        forall i | 0 <= i < SectorCount(|src| - 512)
          ensures d[1..][i] == SectorOf(src[512..], i)
        {
          SectorOfTail(src, i);
        }
        FlattenSectors(d[1..], src[512..]);
        assert src == src[..512] + src[512..];
      }
    }
  }

  lemma {:induction false} NextCluster(g: Geometry, c: nat, n: nat)
    requires 2 <= c && n > 0
    ensures ClusterBase(g, c + 1) == ClusterBase(g, c) + g.spc
    ensures ClusterBase(g, c) + n * g.spc == ClusterBase(g, c + 1) + (n - 1) * g.spc
    ensures g.spc <= n * g.spc
  {
    MulStep(n, g.spc);
    MulStep(c - 1, g.spc);
  }

  lemma {:induction false} RunInside(g: Geometry, c: nat, n: nat)
    requires 2 <= c && c + n <= g.clusters + 2
    ensures ClusterBase(g, c) + n * g.spc <= g.clusters * g.spc
  {
    MulSplit(c - 2, n, g.spc);
    MulMono(c - 2 + n, g.clusters, g.spc);
  }

  /** Consecutive clusters hold consecutive sectors. */
  lemma {:induction false} RunContent(g: Geometry, data: seq<seq<byte>>, c: nat, n: nat)
    requires |data| == g.clusters * g.spc && 2 <= c && c + n <= g.clusters + 2
    ensures ClusterBase(g, c) + n * g.spc <= |data|
    ensures ContentOf(g, data, Consecutive(c, n)) == Flatten(data[ClusterBase(g, c)..ClusterBase(g, c) + n * g.spc])
    decreases n
  {
    RunInside(g, c, n);
    RunContentTo(g, data, c, n, ClusterBase(g, c) + n * g.spc);
  }

  lemma {:induction false} RunContentTo(g: Geometry, data: seq<seq<byte>>, c: nat, n: nat, e: nat)
    requires |data| == g.clusters * g.spc && 2 <= c && c + n <= g.clusters + 2
    requires e == ClusterBase(g, c) + n * g.spc <= |data|
    ensures ContentOf(g, data, Consecutive(c, n)) == Flatten(data[ClusterBase(g, c)..e])
    decreases n
  {
    if n == 0 {
      assert Consecutive(c, n) == [] && data[e..e] == [];
    } else {
      NextCluster(g, c, n);
      hide ClusterBase, ContentOf, Flatten, Consecutive;
      RunContentTo(g, data, c + 1, n - 1, e);
      RunContentStep(g, data, c, n, e);
    }
  }

  lemma {:induction false} ContentHead(g: Geometry, data: seq<seq<byte>>, chain: seq<nat>)
    requires |data| == g.clusters * g.spc && Clusters(g, chain) && chain != []
    ensures Clusters(g, chain[1..])
    ensures ContentOf(g, data, chain) == ClusterBytes(g, data, chain[0]) + ContentOf(g, data, chain[1..])
  {
    hide ClusterBytes;
  }

  lemma {:induction false} RunContentStep(g: Geometry, data: seq<seq<byte>>, c: nat, n: nat, e: nat)
    requires |data| == g.clusters * g.spc && 2 <= c && c + n <= g.clusters + 2 && n > 0
    requires ClusterBase(g, c) + g.spc <= e <= |data|
    requires ContentOf(g, data, Consecutive(c + 1, n - 1)) == Flatten(data[ClusterBase(g, c) + g.spc..e])
    ensures ContentOf(g, data, Consecutive(c, n)) == Flatten(data[ClusterBase(g, c)..e])
  {
    hide ContentOf, Flatten;
    var b := ClusterBase(g, c);
    assert ClusterBytes(g, data, c) == Flatten(data[b..b + g.spc]);
    hide ClusterBytes, ClusterBase, Consecutive;
    ConsecutiveTail(c, n);
    ContentHead(g, data, Consecutive(c, n));
    FlattenConcat(data[b..b + g.spc], data[b + g.spc..e]);
    SliceSplit(data, b, b + g.spc, e);
  }

  /** The linked run as a chain. */
  lemma {:induction false} LinkedChain(g: Geometry, table: seq<nat>, c: nat, n: nat)
    requires ValidGeometry(g) && g.clusters + 2 <= |table| && 2 <= c && c + n <= g.clusters && 0 < n
    ensures var chain := Chain(LinkRun(table, c, n), c, n);
      && ChainOk(LinkRun(table, c, n), g.clusters + 2, c, n)
      && chain == Consecutive(c, n) && Clusters(g, chain)
      && (forall x :: x in chain ==> c <= x < c + n)
  {
    hide LinkRun, Chain, ChainOk;
    LinkedRunIsChain(table, g.clusters + 2, c, n, 0);
    var chain := Chain(LinkRun(table, c, n), c, n);
    assert forall i :: 0 <= i < n ==> chain[i] == c + i;
  }

  lemma {:induction false} StoredRun(g: Geometry, table: seq<nat>, data: seq<seq<byte>>, c: nat, src: seq<byte>)
    requires ValidGeometry(g) && g.clusters + 2 <= |table| && |data| == g.clusters * g.spc
    requires 2 <= c && c + Need(g, |src|) <= g.clusters && 0 < |src|
    ensures var n := Need(g, |src|);
      var chain := Chain(LinkRun(table, c, n), c, n);
      && ChainOk(LinkRun(table, c, n), g.clusters + 2, c, n)
      && (forall x :: x in chain ==> c <= x < c + n)
      && Clusters(g, chain)
      && var content := ContentOf(g, PutSectors(data, ClusterBase(g, c), src, SectorCount(|src|)), chain);
         |src| <= |content| && content[..|src|] == src
  {
    hide LinkRun, Chain, ChainOk, ContentOf, PutSectors;
    NeedCovers(g, |src|);
    LinkedChain(g, table, c, Need(g, |src|));
    StoredContent(g, data, c, src);
  }

  lemma {:induction false} StoredContent(g: Geometry, data: seq<seq<byte>>, c: nat, src: seq<byte>)
    requires ValidGeometry(g) && |data| == g.clusters * g.spc && 2 <= c && c + Need(g, |src|) <= g.clusters && 0 < |src|
    ensures var content := ContentOf(g, PutSectors(data, ClusterBase(g, c), src, SectorCount(|src|)), Consecutive(c, Need(g, |src|)));
      |src| <= |content| && content[..|src|] == src
  {
    hide ContentOf, Flatten, PutSectors, Need, ClusterBase, Consecutive;
    var n, b := Need(g, |src|), ClusterBase(g, c);
    var data' := PutSectors(data, b, src, SectorCount(|src|));
    NeedSectors(g, |src|);
    RunContent(g, data', c, n);
    PutSectorsSlice(data, b, src, n * g.spc);
    FlattenSectors(data'[b..b + n * g.spc], src);
  }

  lemma {:induction false} NeedSectors(g: Geometry, size: nat)
    requires g.spc > 0
    ensures SectorCount(size) <= Need(g, size) * g.spc
  {
    NeedCovers(g, size);
  }

  lemma {:induction false} PutSectorsSlice(data: seq<seq<byte>>, b: nat, src: seq<byte>, len: nat)
    requires b + len <= |data| && SectorCount(|src|) <= len
    ensures forall i :: 0 <= i < SectorCount(|src|) ==>
      PutSectors(data, b, src, SectorCount(|src|))[b..b + len][i] == SectorOf(src, i)
  {
    var data', d := PutSectors(data, b, src, SectorCount(|src|)), PutSectors(data, b, src, SectorCount(|src|))[b..b + len];
    forall i | 0 <= i < SectorCount(|src|)
      ensures d[i] == SectorOf(src, i)
    {
      assert d[i] == data'[b + i];
    }
  }

  /** One cluster filled from a longer buffer. */
  lemma {:induction false} StoredCluster(g: Geometry, data: seq<seq<byte>>, c: nat, src: seq<byte>)
    requires ValidGeometry(g) && |data| == g.clusters * g.spc
    requires 2 <= c < g.clusters + 2 && ClusterSize(g) < |src|
    ensures ClusterBytes(g, PutSectors(data, ClusterBase(g, c), src, g.spc), c) == src[..ClusterSize(g)]
  {
    ClusterInside(g, c);
    var b := ClusterBase(g, c);
    var data', head := PutSectors(data, b, src, g.spc), src[..ClusterSize(g)];
    var d := data'[b..b + g.spc];
    forall i | 0 <= i < g.spc
      ensures d[i] == SectorOf(head, i)
    {
      assert d[i] == data'[b + i] == SectorOf(src, i);
      PrefixSlice(src, ClusterSize(g), 512 * i, 512 * i + 512);
    }
    FlattenSectors(d, head);
    FlattenLength(d);
  }

  /** On any volume, a successful write of an unwrapped size leaves a well-formed entry that holds the
      buffer. */
  lemma {:induction false} StoredFile(g: Geometry, v: Volume, f: seq<byte>, src: seq<byte>)
    requires ValidGeometry(g) && Shape(g, v) && |f| == 11 && |src| < TWO32
    requires Write(g, v, f, src).code == 0 && !Wraps(g, |src|)
    ensures var k, w := Find(v, f).k, Write(g, v, f, src).vol;
      && Shape(g, w) && SlotOk(g, w, k) && FileBytes(g, w, k) == src
      && !IsDirectory(w.slots[k]) && Size(w.slots[k]) == |src|
      && (forall x :: x in SlotChain(g, w, k) ==> x < |v.table| && TableAfterFree(v, Find(v, f))[x] == 0)
  {
    WriteShape(g, v, f, src);
    NeedCovers(g, |src|);
    assert !IsDirectory(Write(g, v, f, src).vol.slots[Find(v, f).k]);
    if src != [] {
      NeededFacts(g, |src|);
      var c, table := RunFor(g, v, Find(v, f), |src|), TableAfterFree(v, Find(v, f));
      assert RunFree(table, c, Need(g, |src|));
      StoredRun(g, table, v.data, c, src);
    }
  }

  /** With a wrapped size the code stores one cluster that it leaves marked free. */
  lemma {:induction false} StoredWrapped(g: Geometry, v: Volume, f: seq<byte>, src: seq<byte>)
    requires ValidGeometry(g) && Shape(g, v) && |f| == 11 && |src| < TWO32
    requires Write(g, v, f, src).code == 0 && Wraps(g, |src|)
    ensures var k, w := Find(v, f).k, Write(g, v, f, src).vol;
      && Shape(g, w) && 2 <= FirstCluster(w.slots[k]) < g.clusters
      && U16(w.slots[k], 20) == 0 && Size(w.slots[k]) == |src|
      && w.table[FirstCluster(w.slots[k])] == 0
      && ClusterBytes(g, w.data, FirstCluster(w.slots[k])) == src[..ClusterSize(g)]
  {
    hide Find, TableAfterFree, ClusterBytes, PutSectors;
    WriteShape(g, v, f, src);
    NeededFacts(g, |src|);
    var c, table := RunFor(g, v, Find(v, f), |src|), TableAfterFree(v, Find(v, f));
    assert RunFree(table, c, 1);
    assert table[c] == 0;
    assert Written(g, |src|, 0) == g.spc;
    StoredCluster(g, v.data, c, src);
  }

  // ---------------------------------------------------------------- well-formedness

  /** The two ways a call can damage the volume: an overwrite that runs out of space after the old
      chain was given back, and a size for which the cluster count wraps. */
  ghost predicate Damages(g: Geometry, v: Volume, f: seq<byte>, src: seq<byte>)
    requires ValidGeometry(g) && Shape(g, v) && |f| == 11 && |src| < TWO32
  {
    var t := Find(v, f);
    || (t.Existing? && FirstCluster(v.slots[t.k]) >= 2 && src != [] && RunFor(g, v, t, |src|) == 0)
    || (!t.Full? && Wraps(g, |src|) && RunFor(g, v, t, |src|) != 0 && f[0] != 0xE5)
  }

  lemma {:induction false} DamagedIsIllFormed(g: Geometry, v: Volume, f: seq<byte>, src: seq<byte>)
    requires ValidGeometry(g) && WellFormed(g, v) && |f| == 11 && f[0] != 0 && |src| < TWO32
    requires Damages(g, v, f, src)
    ensures !WellFormed(g, Write(g, v, f, src).vol)
  {
    var t, w := Find(v, f), Write(g, v, f, src).vol;
    var k := t.k;
    WriteShape(g, v, f, src);
    hide Length;
    if Write(g, v, f, src).code == 0 {
      StoredWrapped(g, v, f, src);
      DirectoryFrame(v, w, f, k);
      assert w.slots[k][0] == w.slots[k][..11][0] == f[0];
    } else {
      FailedFrees(g, v, f, src);
    }
    hide Write, Find;
    assert Owner(w, k);
    FreeStartBreaksChain(w.table, g.clusters + 2, FirstCluster(w.slots[k]), Length(g, w, k));
  }

  /** The entry of a failed overwrite points to a free cluster. */
  lemma {:induction false} FailedFrees(g: Geometry, v: Volume, f: seq<byte>, src: seq<byte>)
    requires ValidGeometry(g) && WellFormed(g, v) && |f| == 11 && |src| < TWO32
    requires Write(g, v, f, src).code != 0 && Damages(g, v, f, src)
    ensures var w, t := Write(g, v, f, src).vol, Find(v, f);
      && t.Existing? && w.slots == v.slots && Owner(w, t.k)
      && var c := FirstCluster(w.slots[t.k]); 2 <= c < |w.table| && w.table[c] == 0
  {
    var w, k := Write(g, v, f, src).vol, Find(v, f).k;
    hide Length;
    assert w.slots == v.slots;
    assert Reached(w, k);
    var c := FirstCluster(v.slots[k]);
    assert SlotOk(g, v, k);
    assert Walk(v.table, c, 0) == c;
    assert Reachable(v.table, c, c);
  }

  lemma {:induction false} KeptWhenFailed(g: Geometry, v: Volume, f: seq<byte>, src: seq<byte>)
    requires ValidGeometry(g) && WellFormed(g, v) && |f| == 11 && |src| < TWO32
    requires Write(g, v, f, src).code != 0 && !Damages(g, v, f, src)
    ensures Write(g, v, f, src).vol == v
  {
  }

  lemma {:induction false} KeptWhenStored(g: Geometry, v: Volume, f: seq<byte>, src: seq<byte>)
    requires ValidGeometry(g) && WellFormed(g, v) && |f| == 11 && f[0] != 0 && |src| < TWO32
    requires Write(g, v, f, src).code == 0 && !Damages(g, v, f, src)
    ensures WellFormed(g, Write(g, v, f, src).vol)
  {
    var t, w := Find(v, f), Write(g, v, f, src).vol;
    var k := t.k;
    WriteShape(g, v, f, src);
    CleanTailKept(v, w, f);
    assert w.slots[k][0] == w.slots[k][..11][0] == f[0];
    forall j | 0 <= j < |w.slots| && j != k && Owner(w, j)
      ensures Owner(v, j) && SlotOk(g, w, j) && SlotChain(g, w, j) == SlotChain(g, v, j)
      ensures Owner(w, k) ==> Disjoint(SlotChain(g, w, j), SlotChain(g, w, k))
      ensures Owner(w, k) ==> Disjoint(SlotChain(g, w, k), SlotChain(g, w, j))
    {
      DirectoryFrame(v, w, f, j);
      OtherFilesUntouched(g, v, f, src, j);
      if Owner(w, k) {
        TargetApart(g, v, f, src, j);
      }
    }
    if Owner(w, k) {
      StoredFile(g, v, f, src);
    }
  }

  /** The clusters of the new file were free, so nobody else owns them. */
  lemma {:induction false} TargetApart(g: Geometry, v: Volume, f: seq<byte>, src: seq<byte>, j: nat)
    requires ValidGeometry(g) && WellFormed(g, v) && |f| == 11 && f[0] != 0 && |src| < TWO32
    requires Write(g, v, f, src).code == 0 && !Wraps(g, |src|)
    requires j < |v.slots| && Owner(v, j) && j != Find(v, f).k
    ensures Shape(g, Write(g, v, f, src).vol)
    ensures Disjoint(SlotChain(g, v, j), SlotChain(g, Write(g, v, f, src).vol, Find(v, f).k))
    ensures Disjoint(SlotChain(g, Write(g, v, f, src).vol, Find(v, f).k), SlotChain(g, v, j))
  {
    StoredFile(g, v, f, src);
    WellFormedProtects(g, v, j);
    ProtectedIsSpared(g, v, j, f);
    hide Find, Write, WellFormed, Protected, TableAfterFree, Owner, Spares;
    SparedStaysUsed(g, v, f, j);
  }

  /** Freeing the target's chain leaves the clusters of a spared file in use. */
  lemma {:induction false} SparedStaysUsed(g: Geometry, v: Volume, f: seq<byte>, j: nat)
    requires ValidGeometry(g) && Shape(g, v) && |f| == 11 && Spares(g, v, j, f)
    ensures forall x :: x in SlotChain(g, v, j) ==> x < |v.table| && TableAfterFree(v, Find(v, f))[x] != 0
  {
    forall x | x in SlotChain(g, v, j)
      ensures x < |v.table| && TableAfterFree(v, Find(v, f))[x] != 0
    {
      SparedCluster(g, v, f, [], j, x);
    }
  }

  /** A call keeps the volume well-formed exactly when it does not damage it. In particular every
      successful write of an unwrapped size and every failed write of a new name keep it. */
  lemma {:induction false} WriteKeepsWellFormed(g: Geometry, v: Volume, f: seq<byte>, src: seq<byte>)
    requires ValidGeometry(g) && WellFormed(g, v) && |f| == 11 && f[0] != 0 && |src| < TWO32
    ensures WellFormed(g, Write(g, v, f, src).vol) <==> !Damages(g, v, f, src)
    ensures !Wraps(g, |src|) && (Write(g, v, f, src).code == 0 || !Find(v, f).Existing?) ==>
      WellFormed(g, Write(g, v, f, src).vol)
  {
    if Damages(g, v, f, src) {
      DamagedIsIllFormed(g, v, f, src);
    } else if Write(g, v, f, src).code == 0 {
      KeptWhenStored(g, v, f, src);
    } else {
      KeptWhenFailed(g, v, f, src);
    }
  }

  // ---------------------------------------------------------------- free space

  ghost function FreeClusters(g: Geometry, v: Volume): nat
    requires ValidGeometry(g) && Shape(g, v)
  {
    |FreeSet(v.table, g.clusters + 2)|
  }

  /** Clusters the target held before the call. */
  ghost function OldLength(g: Geometry, v: Volume, f: seq<byte>): nat
    requires ValidGeometry(g) && Shape(g, v)
  {
    var t := Find(v, f);
    if t.Existing? then Length(g, v, t.k) else 0
  }

  /** The entry that the write replaces, if any, is whole. */
  ghost predicate TargetWhole(g: Geometry, v: Volume, f: seq<byte>)
    requires ValidGeometry(g) && Shape(g, v)
  {
    Find(v, f).Existing? ==> SlotOk(g, v, Find(v, f).k)
  }

  /** Giving the old chain back. */
  lemma {:induction false} OldChainFreed(g: Geometry, v: Volume, f: seq<byte>)
    requires ValidGeometry(g) && Shape(g, v) && TargetWhole(g, v, f) && |f| == 11 && !Find(v, f).Full?
    ensures |FreeSet(TableAfterFree(v, Find(v, f)), g.clusters + 2)| == FreeClusters(g, v) + OldLength(g, v, f)
  {
    hide FreeSet, Freed;
    var t := Find(v, f);
    if t.Existing? {
      var c, n := FirstCluster(v.slots[t.k]), Length(g, v, t.k);
      FreeingAdds(v.table, g.clusters + 2, c, n);
      if c < 2 {
        FreedNothing(v.table, c);
      }
    }
  }

  lemma {:induction false} LinkNothing(t: seq<nat>, c: nat)
    ensures LinkRun(t, c, 0) == t
  {
  }

  /** Conservation: a successful write changes the number of free clusters by the old length minus the
      new length exactly when the size does not wrap; a wrapped one takes no cluster at all. A failed one
      gives back the old chain or nothing. Nothing but the replaced entry need be whole. */
  lemma {:induction false} FreeSpaceConserved(g: Geometry, v: Volume, f: seq<byte>, src: seq<byte>)
    requires ValidGeometry(g) && Shape(g, v) && TargetWhole(g, v, f) && |f| == 11 && |src| < TWO32
    ensures Shape(g, Write(g, v, f, src).vol)
    ensures var o := Write(g, v, f, src);
      && (o.code == 0 ==>
            (FreeClusters(g, o.vol) == FreeClusters(g, v) + OldLength(g, v, f) - Need(g, |src|) <==> !Wraps(g, |src|)))
      && (o.code != 0 || Wraps(g, |src|) ==> FreeClusters(g, o.vol) == FreeClusters(g, v) + OldLength(g, v, f))
  {
    WriteShape(g, v, f, src);
    var t := Find(v, f);
    if !t.Full? {
      OldChainFreed(g, v, f);
      NeedCovers(g, |src|);
      hide Find, FreeSet, PutSectors, TableAfterFree, OldLength, TargetWhole;
      if src != [] {
        NeededFacts(g, |src|);
        StoredTakes(g, v, f, src);
      }
    }
  }

  lemma {:induction false} StoredTakes(g: Geometry, v: Volume, f: seq<byte>, src: seq<byte>)
    requires ValidGeometry(g) && Shape(g, v) && |f| == 11 && 0 < |src| < TWO32 && !Find(v, f).Full?
    ensures var table, c, n := TableAfterFree(v, Find(v, f)), RunFor(g, v, Find(v, f), |src|), Needed32(g, |src|);
      c != 0 ==> |FreeSet(LinkRun(table, c, n), g.clusters + 2)| == |FreeSet(table, g.clusters + 2)| - n
  {
    var table, c, n := TableAfterFree(v, Find(v, f)), RunFor(g, v, Find(v, f), |src|), Needed32(g, |src|);
    hide TableAfterFree, Find, FreeSet;
    if c != 0 {
      if n == 0 {
        LinkNothing(table, c);
      } else {
        assert RunFree(table, c, n);
        LinkingTakes(table, g.clusters + 2, c, n);
      }
    }
  }

  // ---------------------------------------------------------------- the round trip

  lemma {:induction false} ListingFrame(v: Volume, w: Volume, n: nat)
    requires |w.slots| == |v.slots| && n <= |v.slots|
    requires forall i :: 0 <= i < |v.slots| ==> |v.slots[i]| == |w.slots[i]| == 32
    requires forall i :: 0 <= i < n ==> w.slots[i] == v.slots[i] && (Visible(w, i) <==> Visible(v, i))
    ensures Listing(w, n) == Listing(v, n)
  {
    if n > 0 {
      ListingFrame(v, w, n - 1);
    }
  }

  lemma {:induction false} ListingGrows(v: Volume, m: nat, n: nat)
    requires SlotsOk(v)
    requires m <= n <= |v.slots|
    ensures |Listing(v, m)| <= |Listing(v, n)|
    ensures Listing(v, n)[..|Listing(v, m)|] == Listing(v, m)
    decreases n - m
  {
    if m < n {
      ListingGrows(v, m, n - 1);
    }
  }

  /** No entry of the list has this name. */
  ghost predicate Absent(files: seq<FileInfo>, name: seq<byte>) {
    forall i :: 0 <= i < |files| ==> files[i].name != name
  }

  /** No visible slot below `n` renders to this name. */
  ghost predicate Unused(v: Volume, n: nat, name: seq<byte>)
    requires SlotsOk(v)
    requires n <= |v.slots|
  {
    forall j :: 0 <= j < n && Visible(v, j) ==> Render(v.slots[j][..11]) != name
  }

  lemma {:induction false} AbsentAppend(s: seq<FileInfo>, x: FileInfo, name: seq<byte>)
    ensures Absent(s + [x], name) <==> Absent(s, name) && x.name != name
  {
    var t := s + [x];
    assert t[|s|] == x && forall i :: 0 <= i < |s| ==> t[i] == s[i];
  }

  lemma {:induction false} UnusedStep(v: Volume, n: nat, name: seq<byte>)
    requires SlotsOk(v)
    requires 0 < n <= |v.slots|
    ensures Unused(v, n, name) <==> Unused(v, n - 1, name) && (Visible(v, n - 1) ==> Render(v.slots[n - 1][..11]) != name)
  {
    hide Visible, Render;
  }

  lemma {:induction false} ListingNames(v: Volume, n: nat, name: seq<byte>)
    requires SlotsOk(v)
    requires n <= |v.slots|
    ensures Absent(Listing(v, n), name) <==> Unused(v, n, name)
  {
    hide Visible, Render, Absent;
    if n == 0 {
      assert Absent([], name) by { NoneAbsent(name); }
    } else {
      hide Unused;
      var r, x := Listing(v, n - 1), Info(v.slots[n - 1]);
      ListingNames(v, n - 1, name);
      UnusedStep(v, n, name);
      AbsentAppend(r, x, name);
      assert r + [] == r;
    }
  }

  lemma NoneAbsent(name: seq<byte>)
    ensures Absent([], name)
  {
  }

  /** Slot `k` will be found under the rendered name: fewer than 32 visible entries and none of that
      name come before it. All of this can be seen before the call. */
  ghost predicate WillBeListed(v: Volume, f: seq<byte>, k: nat)
    requires SlotsOk(v)
    requires k <= |v.slots| && |f| == 11
  {
    && f[0] != 0xE5
    && |Listing(v, k)| < CACHE_SIZE
    && Unused(v, k, Render(f))
  }

  /** The slot a write of this name goes to, or 0 when there is none. */
  ghost function TargetSlot(v: Volume, f: seq<byte>): nat
    requires SlotsOk(v)
    ensures TargetSlot(v, f) <= |v.slots|
  {
    if Find(v, f).Full? then 0 else Find(v, f).k
  }

  /** A visible slot is found under its name exactly when fewer than 32 entries and none of that name
      are listed before it. */
  lemma {:induction false} CacheLookup(w: Volume, k: nat)
    requires SlotsOk(w)
    requires k < |w.slots| && Visible(w, k)
    ensures var name, p := Render(w.slots[k][..11]), |Listing(w, k)|;
      Lookup(Cache(w), name) == p < |Cache(w)| <==> p < CACHE_SIZE && Absent(Listing(w, k), name)
    ensures |Listing(w, k)| < |Cache(w)| ==> Cache(w)[|Listing(w, k)|] == Info(w.slots[k])
  {
    var all, before := Listing(w, |w.slots|), Listing(w, k);
    assert Listing(w, k + 1) == before + [Info(w.slots[k])];
    ListingGrows(w, k + 1, |w.slots|);
    hide Listing, Visible, Render, Lookup;
    LookupInFirst(all, before, Info(w.slots[k]), CACHE_SIZE);
  }

  /** Looking up an entry's name among the first `size` entries. */
  lemma {:induction false} LookupInFirst(all: seq<FileInfo>, before: seq<FileInfo>, x: FileInfo, size: nat)
    requires |before| < |all| && all[..|before| + 1] == before + [x]
    ensures var files := FirstOf(all, size);
      && (Lookup(files, x.name) == |before| < |files| <==> |before| < size && Absent(before, x.name))
      && (|before| < |files| ==> files[|before|] == x)
  {
    hide Lookup;
    var p, files, front := |before|, FirstOf(all, size), before + [x];
    assert all[p] == all[..p + 1][p] == x;
    assert forall i :: 0 <= i < p ==> all[i] == all[..p + 1][i] == before[i];
    LookupIsFirst(files, x.name, p);
  }

  /** The cache built after a successful write shows the written slot under the rendered name exactly
      when that was to be expected. */
  lemma {:induction false} CacheFindsWritten(g: Geometry, v: Volume, f: seq<byte>, src: seq<byte>)
    requires ValidGeometry(g) && Shape(g, v) && |f| == 11 && f[0] != 0 && |src| < TWO32
    requires Write(g, v, f, src).code == 0
    ensures Shape(g, Write(g, v, f, src).vol)
    ensures var k, w := Find(v, f).k, Write(g, v, f, src).vol;
      var i := Lookup(Cache(w), Render(f));
      (Visible(w, k) && i == |Listing(w, k)| < |Cache(w)|) <==> WillBeListed(v, f, k)
    ensures var k, w := Find(v, f).k, Write(g, v, f, src).vol;
      var i := Lookup(Cache(w), Render(f));
      WillBeListed(v, f, k) ==> i < |Cache(w)| && Cache(w)[i] == Info(w.slots[k])
  {
    hide Write, Cache, Lookup, Render, Find, Shape, Visible, Listing, Unused, Absent;
    WriteShape(g, v, f, src);
    ShapeSlots(g, v);
    ShapeSlots(g, Write(g, v, f, src).vol);
    ListedWritten(v, Write(g, v, f, src).vol, f);
  }

  lemma {:induction false} ShapeSlots(g: Geometry, v: Volume)
    requires Shape(g, v)
    ensures SlotsOk(v) && |v.slots| == 16 * g.rootSectors
  {
  }

  /** The written slot in the listing and in the cache. */
  lemma {:induction false} ListedWritten(v: Volume, w: Volume, f: seq<byte>)
    requires SlotsOk(v) && SlotsOk(w) && |w.slots| == |v.slots| && |f| == 11 && f[0] != 0 && !Find(v, f).Full?
    requires w.slots[Find(v, f).k][..11] == f && w.slots[Find(v, f).k][11] == 0x20
    requires forall i :: 0 <= i < |v.slots| && i != Find(v, f).k ==> w.slots[i] == v.slots[i]
    ensures var k, i := Find(v, f).k, Lookup(Cache(w), Render(f));
      && (Visible(w, k) && i == |Listing(w, k)| < |Cache(w)| <==> WillBeListed(v, f, k))
      && (WillBeListed(v, f, k) ==> i < |Cache(w)| && Cache(w)[i] == Info(w.slots[k]))
  {
    var k := Find(v, f).k;
    hide Cache, Lookup, Render, Absent, Find, Reached;
    WrittenStatus(v, w, f);
    hide Visible, Owner;
    ListingFrame(v, w, k);
    ListingNames(w, k, Render(f));
    ListingNames(v, k, Render(f));
    hide Unused, Listing;
    if Visible(w, k) {
      CacheLookup(w, k);
    }
  }

  lemma {:induction false} WrittenStatus(v: Volume, w: Volume, f: seq<byte>)
    requires SlotsOk(v) && SlotsOk(w) && |w.slots| == |v.slots| && |f| == 11 && f[0] != 0 && !Find(v, f).Full?
    requires w.slots[Find(v, f).k][..11] == f && w.slots[Find(v, f).k][11] == 0x20
    requires forall i :: 0 <= i < |v.slots| && i != Find(v, f).k ==> w.slots[i] == v.slots[i]
    ensures Visible(w, Find(v, f).k) <==> f[0] != 0xE5
    ensures forall j :: 0 <= j < Find(v, f).k ==> w.slots[j] == v.slots[j] && (Visible(w, j) <==> Visible(v, j))
  {
    var k := Find(v, f).k;
    assert Reached(v, k);
    assert w.slots[k][0] == w.slots[k][..11][0] == f[0];
    hide Find;
    assert forall j :: 0 <= j <= k ==> (Reached(w, j) <==> Reached(v, j));
    hide Reached;
  }

  lemma {:induction false} LookupIsFirst(files: seq<FileInfo>, name: seq<byte>, p: nat)
    ensures Lookup(files, name) == p < |files| <==>
      (p < |files| && files[p].name == name && forall i :: 0 <= i < p ==> files[i].name != name)
  {
    var l := Lookup(files, name);
    if p < |files| && files[p].name == name && (forall i :: 0 <= i < p ==> files[i].name != name) {
      assert !(l < p) && !(p < l);
    }
  }

  lemma {:induction false} FirstOfConcat(a: seq<byte>, b: seq<byte>, n: nat)
    ensures FirstOf(a + b, n) == if n <= |a| then FirstOf(a, n) else a + FirstOf(b, n - |a|)
  {
  }

  /** On a proper chain, reading collects the chain's content, as far as it is wanted. */
  lemma {:induction false} ReadAlongChain(g: Geometry, v: Volume, c: nat, n: nat, want: nat)
    requires ValidGeometry(g) && Shape(g, v) && ChainOk(v.table, g.clusters + 2, c, n)
    ensures Readable(g, v, c, want) && Clusters(g, Chain(v.table, c, n))
    ensures ReadFrom(g, v, c, want) == FirstOf(ContentOf(g, v.data, Chain(v.table, c, n)), want)
    decreases n
  {
    hide ClusterBytes, ContentOf, Chain, Readable, ReadFrom, FirstOf;
    ChainContent(g, v, c, n);
    ReadUnfolds(g, v, c, want);
    if n > 0 {
      var head, tail := ClusterBytes(g, v.data, c), ContentOf(g, v.data, Chain(v.table, Step(v.table, c), n - 1));
      if want > ClusterSize(g) && n > 1 {
        ReadAlongChain(g, v, v.table[c], n - 1, want - ClusterSize(g));
      }
      FirstOfConcat(head, tail, want);
      if want > ClusterSize(g) && n == 1 {
        FirstOfNone(tail, want - ClusterSize(g));
        assert head + [] == head;
      }
      if want == 0 {
        FirstOfFront(head, |head|, 0);
      }
    } else {
      FirstOfNone(ContentOf(g, v.data, Chain(v.table, c, n)), want);
    }
  }

  lemma {:induction false} FirstOfNone(a: seq<byte>, n: nat)
    requires a == []
    ensures FirstOf(a, n) == []
  {
  }

  lemma {:induction false} FirstOfFront(a: seq<byte>, m: nat, n: nat)
    requires n <= m <= |a|
    ensures FirstOf(a, n) == a[..n] == FirstOf(a[..m], n)
  {
  }

  /** One step of a read. */
  lemma {:induction false} ReadUnfolds(g: Geometry, v: Volume, c: nat, want: nat)
    requires ValidGeometry(g) && Shape(g, v)
    ensures want == 0 || c < 2 ==> Readable(g, v, c, want) && ReadFrom(g, v, c, want) == []
    ensures want > 0 && 2 <= c < g.clusters + 2 && want <= ClusterSize(g) ==>
      Readable(g, v, c, want) && ReadFrom(g, v, c, want) == FirstOf(ClusterBytes(g, v.data, c), want)
    ensures want > ClusterSize(g) && 2 <= c < g.clusters + 2 && v.table[c] >= 0xFFF8 ==>
      Readable(g, v, c, want) && ReadFrom(g, v, c, want) == ClusterBytes(g, v.data, c)
    ensures want > ClusterSize(g) && 2 <= c < g.clusters + 2 && v.table[c] < 0xFFF8 && Readable(g, v, v.table[c], want - ClusterSize(g)) ==>
      && Readable(g, v, c, want)
      && ReadFrom(g, v, c, want) == ClusterBytes(g, v.data, c) + ReadFrom(g, v, v.table[c], want - ClusterSize(g))
  {
    hide ClusterBytes;
  }

  /** The content of a chain starts with its first cluster. */
  lemma {:induction false} ChainContent(g: Geometry, v: Volume, c: nat, n: nat)
    requires ValidGeometry(g) && Shape(g, v) && ChainOk(v.table, g.clusters + 2, c, n)
    ensures Clusters(g, Chain(v.table, c, n)) && |ContentOf(g, v.data, Chain(v.table, c, n))| == n * ClusterSize(g)
    ensures n == 0 ==> ContentOf(g, v.data, Chain(v.table, c, n)) == []
    ensures n == 1 ==> ContentOf(g, v.data, Chain(v.table, Step(v.table, c), 0)) == []
    ensures n > 0 ==>
      && 2 <= c < g.clusters + 2 && |ClusterBytes(g, v.data, c)| == ClusterSize(g)
      && Clusters(g, Chain(v.table, Step(v.table, c), n - 1))
      && ContentOf(g, v.data, Chain(v.table, c, n)) ==
           ClusterBytes(g, v.data, c) + ContentOf(g, v.data, Chain(v.table, Step(v.table, c), n - 1))
  {
    hide ClusterBytes;
    var chain := Chain(v.table, c, n);
    ChainBounds(v.table, g.clusters + 2, c, n);
    assert forall i :: 0 <= i < |chain| ==> chain[i] in chain;
    ContentLength(g, v.data, chain);
    if n > 0 {
      ClusterBytesLength(g, v.data, c);
      assert chain[0] == c && chain[1..] == Chain(v.table, Step(v.table, c), n - 1);
      hide Chain, ContentOf, ChainOk;
      ContentHead(g, v.data, chain);
    }
  }

  /** Reading any whole file gives its bytes, as many as are asked for and its size field allows. */
  lemma {:induction false} ReadGivesFileBytes(g: Geometry, v: Volume, k: nat, max: nat)
    requires ValidGeometry(g) && Shape(g, v) && k < |v.slots| && SlotOk(g, v, k)
    ensures var s := v.slots[k];
      && Readable(g, v, Info(s).cluster, Min(Size(s), max))
      && ReadFrom(g, v, Info(s).cluster, Min(Size(s), max)) == FirstOf(FileBytes(g, v, k), Min(Size(s), max))
  {
    hide Readable, ReadFrom, ContentOf, ClusterBytes, FirstOf, Chain, ChainOk, EndLength, Need;
    var s := v.slots[k];
    ReadAlongChain(g, v, FirstCluster(s), Length(g, v, k), Min(Size(s), max));
    FileIsFront(g, v, k);
    if !IsDirectory(s) {
      FirstOfFront(ContentOf(g, v.data, SlotChain(g, v, k)), Size(s), Min(Size(s), max));
    }
  }

  lemma {:induction false} FileIsFront(g: Geometry, v: Volume, k: nat)
    requires ValidGeometry(g) && Shape(g, v) && k < |v.slots| && SlotOk(g, v, k)
    ensures Clusters(g, SlotChain(g, v, k))
    ensures var content := ContentOf(g, v.data, SlotChain(g, v, k));
      if IsDirectory(v.slots[k]) then FileBytes(g, v, k) == content
      else Size(v.slots[k]) <= |content| && FileBytes(g, v, k) == content[..Size(v.slots[k])]
  {
    hide ContentOf, SlotOk, Length, Chain;
    SlotChainClusters(g, v, k);
    ContentLength(g, v.data, SlotChain(g, v, k));
    LengthCovers(g, v, k);
  }

  lemma {:induction false} LengthCovers(g: Geometry, v: Volume, k: nat)
    requires g.spc > 0 && g.clusters + 2 <= |v.table| && k < |v.slots| && |v.slots[k]| == 32
    ensures !IsDirectory(v.slots[k]) ==> Size(v.slots[k]) <= Length(g, v, k) * ClusterSize(g)
  {
    NeedCovers(g, Size(v.slots[k]));
  }

  /** How many bytes of a file just written are read back: a wrapped size keeps one cluster. */
  function ReadBack(g: Geometry, size: nat, max: nat): nat {
    if Wraps(g, size) then Min(max, ClusterSize(g)) else Min(size, max)
  }

  /** The write/read round trip, on every volume. After a successful write, reading the rendered name finds
      the new entry, and gives back the buffer's first bytes: the asked-for prefix exactly when the size
      does not wrap or the caller asks for no more than one cluster. */
  lemma {:induction false} RoundTrip(g: Geometry, v: Volume, f: seq<byte>, src: seq<byte>, max: nat)
    requires ValidGeometry(g) && Shape(g, v) && |f| == 11 && f[0] != 0 && |src| < TWO32
    requires Write(g, v, f, src).code == 0 && WillBeListed(v, f, Find(v, f).k)
    ensures Shape(g, Write(g, v, f, src).vol)
    ensures var w := Write(g, v, f, src).vol;
      var i := Lookup(Cache(w), Render(f));
      && i < |Cache(w)| && Cache(w)[i].size == |src|
      && Readable(g, w, Cache(w)[i].cluster, Min(|src|, max)) && ReadBack(g, |src|, max) <= |src|
      && ReadFrom(g, w, Cache(w)[i].cluster, Min(|src|, max)) == src[..ReadBack(g, |src|, max)]
      && (ReadFrom(g, w, Cache(w)[i].cluster, Min(|src|, max)) == src[..Min(|src|, max)]
          <==> (!Wraps(g, |src|) || max <= ClusterSize(g)))
  {
    hide Write, Cache, Lookup, Render, Find, WillBeListed, Readable, ReadFrom, Wraps, Visible, Listing;
    WriteShape(g, v, f, src);
    CacheFindsWritten(g, v, f, src);
    if Wraps(g, |src|) {
      ReadWrapped(g, v, f, src, max);
    } else {
      ReadStored(g, v, f, src, max);
    }
  }

  /** Reading the entry just written. */
  lemma {:induction false} ReadStored(g: Geometry, v: Volume, f: seq<byte>, src: seq<byte>, max: nat)
    requires ValidGeometry(g) && Shape(g, v) && |f| == 11 && |src| < TWO32
    requires Write(g, v, f, src).code == 0 && !Wraps(g, |src|) && !Find(v, f).Full?
    ensures var w, want := Write(g, v, f, src).vol, Min(|src|, max);
      && Shape(g, w) && Find(v, f).k < |w.slots|
      && var x := Info(w.slots[Find(v, f).k]);
         x.size == |src| && Readable(g, w, x.cluster, want) && ReadFrom(g, w, x.cluster, want) == src[..want]
  {
    hide Write, Find, ReadFrom, Readable, Wraps, SlotOk, FileBytes, FirstOf;
    StoredFile(g, v, f, src);
    ReadGivesFileBytes(g, Write(g, v, f, src).vol, Find(v, f).k, max);
    FirstOfFront(src, |src|, Min(|src|, max));
  }

  /** Reading it when its size wrapped: only the first cluster is there. */
  lemma {:induction false} ReadWrapped(g: Geometry, v: Volume, f: seq<byte>, src: seq<byte>, max: nat)
    requires ValidGeometry(g) && Shape(g, v) && |f| == 11 && |src| < TWO32
    requires Write(g, v, f, src).code == 0 && Wraps(g, |src|) && !Find(v, f).Full?
    ensures var w, want := Write(g, v, f, src).vol, Min(|src|, max);
      && Shape(g, w) && Find(v, f).k < |w.slots|
      && var x := Info(w.slots[Find(v, f).k]);
         && x.size == |src| && Readable(g, w, x.cluster, want) && ClusterSize(g) < |src|
         && ReadFrom(g, w, x.cluster, want) == src[..Min(max, ClusterSize(g))]
         && (ReadFrom(g, w, x.cluster, want) == src[..want] <==> max <= ClusterSize(g))
  {
    hide Write, Find, ClusterBytes, Readable, ReadFrom;
    StoredWrapped(g, v, f, src);
    WrappedNeed(g, |src|);
    var w, k := Write(g, v, f, src).vol, Find(v, f).k;
    ShapeSlots(g, w);
    ReadOneCluster(g, w, FirstCluster(w.slots[k]), Min(|src|, max));
    PrefixSlice(src, ClusterSize(g), 0, Min(ClusterSize(g), max));
  }

  /** A chain that stops after one cluster, however it stops. */
  lemma {:induction false} ReadOneCluster(g: Geometry, v: Volume, c: nat, want: nat)
    requires ValidGeometry(g) && Shape(g, v) && 2 <= c < g.clusters + 2 && v.table[c] == 0
    ensures Readable(g, v, c, want) && |ClusterBytes(g, v.data, c)| == ClusterSize(g)
    ensures ReadFrom(g, v, c, want) == FirstOf(ClusterBytes(g, v.data, c), want)
  {
    hide ClusterBytes;
    ClusterBytesLength(g, v.data, c);
    if want > ClusterSize(g) {
      assert Readable(g, v, 0, want - ClusterSize(g)) && ReadFrom(g, v, 0, want - ClusterSize(g)) == [];
    }
  }

  lemma {:induction false} FormatHasNoZero(name: seq<byte>)
    requires IsCString(name)
    ensures Format(name)[0] != 0
  {
    assert forall i :: 0 <= i < |name| ==> name[i] in name;
    assert forall i :: 0 <= i < |Extension(name)| ==> Extension(name)[i] in name;
  }

  /** The round trip by name: a valid 8.3 name is read back under its upper-casing. */
  lemma {:induction false} RoundTripByName(g: Geometry, v: Volume, name: seq<byte>, shown: seq<byte>, src: seq<byte>, max: nat)
    requires ValidGeometry(g) && Shape(g, v) && IsCString(name) && Capitals(name, shown) && |src| < TWO32
    requires Write(g, v, Format(name), src).code == 0 && WillBeListed(v, Format(name), Find(v, Format(name)).k)
    ensures Shape(g, Write(g, v, Format(name), src).vol)
    ensures ValidName(name) <==> Render(Format(name)) == shown
    ensures ValidName(name) ==>
      var w := Write(g, v, Format(name), src).vol;
      var i := Lookup(Cache(w), shown);
      && i < |Cache(w)| && Cache(w)[i].size == |src|
      && Readable(g, w, Cache(w)[i].cluster, Min(|src|, max)) && ReadBack(g, |src|, max) <= |src|
      && ReadFrom(g, w, Cache(w)[i].cluster, Min(|src|, max)) == src[..ReadBack(g, |src|, max)]
      && (ReadFrom(g, w, Cache(w)[i].cluster, Min(|src|, max)) == src[..Min(|src|, max)]
          <==> (!Wraps(g, |src|) || max <= ClusterSize(g)))
  {
    hide Write, Cache, Lookup, Render, Format, Find, ReadFrom, Readable, Wraps, WillBeListed;
    FormatHasNoZero(name);
    ShownInCapitals(name, shown);
    RoundTrip(g, v, Format(name), src, max);
  }
}
