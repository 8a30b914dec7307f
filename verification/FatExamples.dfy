/** Concrete volumes: one on which every write works, and others on which `fat_write_file` leaves an
    inconsistent file system behind or loses clusters. */
module FatExamples {
  import opened Arithmetic
  import opened Bytes
  import opened FatTable
  import opened FatNames
  import opened FatVolume
  import opened FatTheorems
  import opened FatRuns

  /** One FAT of 16 sectors, one root directory sector, 4085 clusters of one sector. */
  const SMALL: Geometry := Geometry(1, 1, 16, 1, 1, 4085)

  /** The stored form of the name "A". */
  const NAME: seq<byte> := [65, 32, 32, 32, 32, 32, 32, 32, 32, 32, 32]

  function Blank(): (r: seq<byte>)
    ensures |r| == 32 && r[0] == 0
  {
    seq(32, _ => 0)
  }

  /** Root directory slot 0 as given, the other 15 empty. */
  function Root(first: seq<byte>): (r: seq<seq<byte>>)
    ensures |r| == 16 && r[0] == first
    ensures forall k :: 1 <= k < 16 ==> r[k] == Blank()
  {
    seq(16, k => if k == 0 then first else Blank())
  }

  function ZeroData(): (r: seq<seq<byte>>)
    ensures |r| == 4085 && forall l :: 0 <= l < |r| ==> |r[l]| == 512
  {
    seq(4085, _ => seq(512, _ => 0))
  }

  /** No free cluster; the one file, of a single byte, is stored in cluster 2. */
  function FullVolume(): Volume {
    Volume(seq(4096, _ => 0xFFFF), Root(PutSlot(Blank(), NAME, 2, 1)), ZeroData())
  }

  function EmptyVolume(): Volume {
    Volume(seq(4096, _ => 0), Root(Blank()), ZeroData())
  }

  lemma {:induction false} FullVolumeOk()
    ensures ValidGeometry(SMALL) && Shape(SMALL, FullVolume()) && WellFormed(SMALL, FullVolume())
    ensures Find(FullVolume(), NAME) == Existing(0)
  {
    var v := FullVolume();
    var s := v.slots[0];
    assert s[0] == s[..11][0] == 65;
    assert Matches(v, NAME, 0);
    TargetUnique(v, NAME, Existing(0));
    NeedCovers(SMALL, 1);
    assert Need(SMALL, 1) == 1;
    assert SlotOk(SMALL, v, 0);
    assert forall k :: 1 <= k < 16 ==> IsFree(v.slots[k]);
    assert forall k :: Owner(v, k) ==> k == 0;
  }

  /** Overwriting that file with 513 bytes fails for want of space, after its chain was freed. */
  lemma {:induction false} FailedOverwriteDamages(src: seq<byte>)
    requires |src| == 513
    ensures ValidGeometry(SMALL) && WellFormed(SMALL, FullVolume())
    ensures var o := Write(SMALL, FullVolume(), NAME, src); o.code == -1 && !WellFormed(SMALL, o.vol)
  {
    FullVolumeOk();
    var v := FullVolume();
    var t := v.table;
    FreedStep(t, 2);
    FreedNothing(t[2 := 0], 0xFFFF);
    NeededFacts(SMALL, 513);
    assert Need(SMALL, 513) == 2;
    var freed := TableAfterFree(v, Existing(0));
    assert freed == t[2 := 0];
    hide WellFormed, Find;
    NoPair(freed, 4085);
    assert RunFor(SMALL, v, Existing(0), 513) == 0;
    DamagedIsIllFormed(SMALL, v, NAME, src);
  }

  lemma {:induction false} NoPair(t: seq<nat>, limit: nat)
    requires limit <= |t| && forall c :: 2 < c < |t| ==> t[c] != 0
    ensures FirstRun(t, limit, 2) == 0
  {
    forall c | 2 <= c && c + 2 <= limit
      ensures !RunFree(t, c, 2)
    {
      assert t[c + 1] != 0;
    }
    FirstRunUnique(t, limit, 2, 0);
  }

  lemma {:induction false} EmptyVolumeOk()
    ensures ValidGeometry(SMALL) && Shape(SMALL, EmptyVolume()) && WellFormed(SMALL, EmptyVolume())
    ensures Find(EmptyVolume(), NAME) == Fresh(0)
  {
    var v := EmptyVolume();
    assert forall k :: 0 <= k < 16 ==> IsFree(v.slots[k]);
    TargetUnique(v, NAME, Fresh(0));
  }

  /** A file of 4 GiB less one byte is accepted on an empty volume, and gets a single cluster. */
  lemma {:induction false} WrappedSizeDamages(src: seq<byte>)
    requires |src| == TWO32 - 1
    ensures ValidGeometry(SMALL) && WellFormed(SMALL, EmptyVolume())
    ensures var o := Write(SMALL, EmptyVolume(), NAME, src); o.code == 0 && !WellFormed(SMALL, o.vol)
  {
    EmptyVolumeOk();
    var v := EmptyVolume();
    NeededFacts(SMALL, |src|);
    assert RunFree(v.table, 2, 1);
    assert RunFor(SMALL, v, Fresh(0), |src|) != 0;
    hide WellFormed, Find;
    DamagedIsIllFormed(SMALL, v, NAME, src);
  }

  lemma {:induction false} EmptyVolumeHasRoom(n: nat)
    requires 1 <= n <= 4083
    ensures FirstRun(EmptyVolume().table, 4085, n) == 2
  {
    var t := EmptyVolume().table;
    assert RunFree(t, 2, n);
    FirstRunUnique(t, 4085, n, 2);
  }

  lemma {:induction false} EmptyWrite(src: seq<byte>)
    requires |src| <= 4083 * 512
    ensures ValidGeometry(SMALL) && Shape(SMALL, EmptyVolume()) && Find(EmptyVolume(), NAME) == Fresh(0)
    ensures Write(SMALL, EmptyVolume(), NAME, src).code == 0 && !Wraps(SMALL, |src|) && WillBeListed(EmptyVolume(), NAME, 0)
  {
    hide WellFormed, Render;
    EmptyVolumeOk();
    hide Find, PutSectors, FirstRun;
    NeedCovers(SMALL, |src|);
    if src != [] {
      NeededFacts(SMALL, |src|);
      EmptyVolumeHasRoom(Need(SMALL, |src|));
    }
  }

  /** Every file of up to 4083 clusters can be written to the empty volume, and reads back whole. */
  lemma {:induction false} EmptyVolumeRoundTrip(src: seq<byte>)
    requires |src| <= 4083 * 512
    ensures ValidGeometry(SMALL) && WellFormed(SMALL, EmptyVolume())
    ensures var o := Write(SMALL, EmptyVolume(), NAME, src);
      && o.code == 0 && WellFormed(SMALL, o.vol)
      && var i := Lookup(Cache(o.vol), Render(NAME));
         i < |Cache(o.vol)| && Readable(SMALL, o.vol, Cache(o.vol)[i].cluster, |src|) &&
         ReadFrom(SMALL, o.vol, Cache(o.vol)[i].cluster, |src|) == src
  {
    hide WellFormed, Find, Cache, Lookup, Readable, ReadFrom, Render, Write, EmptyVolume, WillBeListed;
    EmptyVolumeOk();
    EmptyWrite(src);
    WriteKeepsWellFormed(SMALL, EmptyVolume(), NAME, src);
    RoundTrip(SMALL, EmptyVolume(), NAME, src, |src|);
    assert src[..|src|] == src;
  }

  // ---------------------------------------------------------------- an entry that dangles

  /** The stored form of the name "B". */
  const OTHER: seq<byte> := [66, 32, 32, 32, 32, 32, 32, 32, 32, 32, 32]

  /** Slot 0 points to cluster 2 with one byte, and so does slot 1. */
  function CrossedVolume(s1: seq<byte>, data: seq<seq<byte>>): Volume {
    Volume(seq(4096, _ => 0xFFFF), Root(PutSlot(Blank(), NAME, 2, 1))[1 := s1], data)
  }

  /** The first call: it fails, and the entry of A dangles. */
  lemma {:induction false} FirstDangles(src: seq<byte>)
    requires |src| == 513
    ensures ValidGeometry(SMALL) && Shape(SMALL, FullVolume())
    ensures Write(SMALL, FullVolume(), NAME, src) == Outcome(-1, FullVolume().(table := FullVolume().table[2 := 0]))
  {
    FullVolumeOk();
    var v := FullVolume();
    FreedStep(v.table, 2);
    FreedNothing(v.table[2 := 0], 0xFFFF);
    NeededFacts(SMALL, 513);
    assert Need(SMALL, 513) == 2;
    var freed := TableAfterFree(v, Existing(0));
    assert freed == v.table[2 := 0];
    hide WellFormed, Find;
    NoPair(freed, 4085);
    assert RunFor(SMALL, v, Existing(0), 513) == 0;
  }

  lemma {:induction false} SecondTarget()
    ensures var v := FullVolume(); SlotsOk(v) && Find(v.(table := v.table[2 := 0]), OTHER) == Fresh(1)
  {
    var w := FullVolume().(table := FullVolume().table[2 := 0]);
    var s := w.slots[0];
    assert s[0] == s[..11][0] == 65 && OTHER[0] == 66;
    assert forall k :: 1 <= k < 16 ==> IsFree(w.slots[k]) && w.slots[k][0] == 0;
    assert Reached(w, 0) && Reached(w, 1);
    assert forall j :: 0 <= j < 16 ==> !Matches(w, OTHER, j);
    TargetUnique(w, OTHER, Fresh(1));
  }

  /** The second call: B gets the cluster that A's entry still names. */
  lemma {:induction false} SecondCrosses(b: byte) returns (data: seq<seq<byte>>, s1: seq<byte>)
    ensures ValidGeometry(SMALL) && Shape(SMALL, FullVolume().(table := FullVolume().table[2 := 0]))
    ensures |s1| == 32 && s1[..11] == OTHER && s1[11] == 0x20 && FirstCluster(s1) == 2 && Size(s1) == 1 && U16(s1, 20) == 0
    ensures |data| == 4085 && (forall l :: 0 <= l < |data| ==> |data[l]| == 512) && data[0][0] == b
    ensures Write(SMALL, FullVolume().(table := FullVolume().table[2 := 0]), OTHER, [b]) == Outcome(0, CrossedVolume(s1, data))
  {
    var w := FullVolume().(table := FullVolume().table[2 := 0]);
    FullVolumeOk();
    SecondTarget();
    s1 := PutSlot(w.slots[1], OTHER, 2, 1);
    data := PutSectors(w.data, 0, [b], 1);
    PutSectorsShape(w.data, 0, [b], 1);
    assert data[0] == SectorOf([b], 0);
    assert w.slots[1 := s1] == CrossedVolume(s1, data).slots;
    hide WellFormed, Find, Write, PutSectors, PutSlot, Root;
    SecondWrite(w, FullVolume().table, b);
  }

  lemma {:induction false} SecondWrite(w: Volume, t: seq<nat>, b: byte)
    requires ValidGeometry(SMALL) && Shape(SMALL, w) && Find(w, OTHER) == Fresh(1)
    requires |t| == 4096 && t[2] == 0xFFFF && w.table == t[2 := 0]
    ensures Write(SMALL, w, OTHER, [b]) ==
      Outcome(0, Volume(t, w.slots[1 := PutSlot(w.slots[1], OTHER, 2, 1)], PutSectors(w.data, 0, [b], 1)))
  {
    OneByte();
    SecondRun(w, t);
    hide Find, PutSectors, PutSlot, FirstRun, RunFor, LinkRun, Needed32, Written, ClusterBase, TableAfterFree;
    TableAfterFreeOfFresh(w, 1);
  }

  lemma {:induction false} OneByte()
    ensures Needed32(SMALL, 1) == 1 && Written(SMALL, 1, 1) == 1 && ClusterBase(SMALL, 2) == 0
  {
    NeededFacts(SMALL, 1);
    assert Need(SMALL, 1) == 1;
  }

  lemma {:induction false} TableAfterFreeOfFresh(v: Volume, k: nat)
    ensures TableAfterFree(v, Fresh(k)) == v.table
  {
  }

  lemma {:induction false} SecondRun(w: Volume, t: seq<nat>)
    requires |t| == 4096 && t[2] == 0xFFFF && w.table == t[2 := 0]
    ensures RunFor(SMALL, w, Fresh(1), 1) == 2 && LinkRun(w.table, 2, 1) == t
  {
    OneByte();
    hide FirstRun;
    assert RunFree(w.table, 2, 1);
    FirstRunUnique(w.table, 4085, 1, 2);
    assert LinkRun(w.table, 2, 1) == t;
  }

  lemma {:induction false} CrossedOk(s1: seq<byte>, data: seq<seq<byte>>)
    requires |s1| == 32 && s1[..11] == OTHER && s1[11] == 0x20 && FirstCluster(s1) == 2 && Size(s1) == 1 && U16(s1, 20) == 0
    requires |data| == 4085 && forall l :: 0 <= l < |data| ==> |data[l]| == 512
    ensures var v := CrossedVolume(s1, data);
      && ValidGeometry(SMALL) && Shape(SMALL, v) && Find(v, NAME) == Existing(0) && Owner(v, 1) && SlotOk(SMALL, v, 1)
      && FirstCluster(v.slots[0]) == 2 && v.table[2] == 0xFFFF && v.slots[1] == s1 && Threatens(SMALL, v, 1, NAME)
  {
    CrossedTarget(s1, data);
    CrossedSlot(s1, data);
    hide CrossedVolume, Find, SlotChain, SlotOk, Owner;
    OneLeads(CrossedVolume(s1, data).table);
  }

  lemma {:induction false} CrossedTarget(s1: seq<byte>, data: seq<seq<byte>>)
    requires |s1| == 32 && s1[..11] == OTHER && s1[11] == 0x20
    requires |data| == 4085 && forall l :: 0 <= l < |data| ==> |data[l]| == 512
    ensures var v := CrossedVolume(s1, data);
      && ValidGeometry(SMALL) && Shape(SMALL, v) && Find(v, NAME) == Existing(0) && Owner(v, 1)
      && FirstCluster(v.slots[0]) == 2 && v.table[2] == 0xFFFF && v.slots[1] == s1
  {
    var v := CrossedVolume(s1, data);
    var s := v.slots[0];
    assert s[0] == s[..11][0] == 65 && s1[0] == s1[..11][0] == 66;
    assert Matches(v, NAME, 0);
    TargetUnique(v, NAME, Existing(0));
    assert Reached(v, 1) && v.slots[1] == s1;
  }

  lemma {:induction false} CrossedSlot(s1: seq<byte>, data: seq<seq<byte>>)
    requires |s1| == 32 && s1[11] == 0x20 && FirstCluster(s1) == 2 && Size(s1) == 1 && U16(s1, 20) == 0
    requires Shape(SMALL, CrossedVolume(s1, data))
    ensures var v := CrossedVolume(s1, data);
      SlotOk(SMALL, v, 1) && SlotChain(SMALL, v, 1) == Chain(v.table, 2, 1)
  {
    NeedCovers(SMALL, 1);
    assert Need(SMALL, 1) == 1;
    assert !IsDirectory(s1) && CrossedVolume(s1, data).slots[1] == s1;
  }

  lemma {:induction false} OneLeads(t: seq<nat>)
    requires |t| == 4096
    ensures !LeadsPast(t, 2, Chain(t, 2, 1))
  {
    assert Walk(t, 2, 0) == 2;
    assert Reachable(t, 2, 2) && Chain(t, 2, 1)[0] == 2;
  }

  /** The three calls: a failed overwrite of A, one byte written to B, and A emptied. The last one frees the
      cluster of B, which it does not name; so files written to a damaged volume are not safe. */
  lemma {:induction false} DanglingEntryFreesOther(src: seq<byte>, b: byte)
    requires |src| == 513
    ensures AllProper([Call(NAME, src), Call(OTHER, [b])]) && AllProper([Call(NAME, [])])
    ensures ValidGeometry(SMALL) && WellFormed(SMALL, FullVolume())
    ensures var v2 := After(SMALL, FullVolume(), [Call(NAME, src), Call(OTHER, [b])]);
      var v3 := After(SMALL, v2, [Call(NAME, [])]);
      && Owner(v2, 1) && v2.slots[1][..11] == OTHER && SlotOk(SMALL, v2, 1) && Threatens(SMALL, v2, 1, NAME)
      && |v3.slots| == |v2.slots| && v3.slots[1] == v2.slots[1] && !SlotOk(SMALL, v3, 1)
  {
    hide WellFormed, Find, Write, FullVolume, CrossedVolume, After, SlotOk, Owner, Threatens;
    FullVolumeOk();
    FirstDangles(src);
    var data, s1 := SecondCrosses(b);
    CrossedOk(s1, data);
    AfterTwo(FullVolume(), Call(NAME, src), Call(OTHER, [b]));
    EmptiedFrees(CrossedVolume(s1, data));
    AfterOne(CrossedVolume(s1, data), Call(NAME, []));
  }

  lemma {:induction false} AfterOne(v: Volume, x: Call)
    requires ValidGeometry(SMALL) && Shape(SMALL, v) && Proper(x)
    ensures After(SMALL, v, [x]) == Next(SMALL, v, x)
  {
    assert [x][1..] == [];
    assert After(SMALL, Next(SMALL, v, x), []) == Next(SMALL, v, x);
  }

  lemma {:induction false} AfterTwo(v: Volume, x: Call, y: Call)
    requires ValidGeometry(SMALL) && Shape(SMALL, v) && Proper(x) && Proper(y)
    ensures After(SMALL, v, [x, y]) == Next(SMALL, Next(SMALL, v, x), y)
  {
    assert [x, y][1..] == [y];
    AfterOne(Next(SMALL, v, x), y);
  }

  /** Emptying A frees cluster 2. */
  lemma {:induction false} EmptiedFrees(v: Volume)
    requires ValidGeometry(SMALL) && Shape(SMALL, v) && Find(v, NAME) == Existing(0)
    requires FirstCluster(v.slots[0]) == 2 == FirstCluster(v.slots[1]) && v.table[2] >= 0xFFF8 && Size(v.slots[1]) == 1
    ensures var w := Write(SMALL, v, NAME, []).vol;
      Shape(SMALL, w) && w.slots[1] == v.slots[1] && !SlotOk(SMALL, w, 1)
  {
    var w := Write(SMALL, v, NAME, []).vol;
    WriteShape(SMALL, v, NAME, []);
    assert Walk(v.table, 2, 0) == 2;
    assert Reachable(v.table, 2, 2);
    assert w.table[2] == 0;
    NeedCovers(SMALL, 1);
    FreeStartBreaksChain(w.table, 4087, 2, Length(SMALL, w, 1));
  }

  // ---------------------------------------------------------------- a name that hides its entry

  /** 0xE5 in front marks an entry as deleted. */
  const HIDDEN: seq<byte> := [0xE5, 32, 32, 32, 32, 32, 32, 32, 32, 32, 32]

  /** One byte written under such a name to the empty volume: the call succeeds, and a cluster is lost. */
  lemma {:induction false} HiddenNameLosesCluster(b: byte)
    ensures ValidGeometry(SMALL) && WellFormed(SMALL, EmptyVolume())
    ensures Write(SMALL, EmptyVolume(), HIDDEN, [b]).code == 0
    ensures Accounted(SMALL, Next(SMALL, EmptyVolume(), Call(HIDDEN, [b]))) + 1 == Accounted(SMALL, EmptyVolume())
  {
    hide WellFormed, Find, Accounted, EmptyVolume, FirstRun, Write, Next, Hides, Damages;
    EmptyVolumeOk();
    HiddenTarget();
    EmptyVolumeHasRoom(1);
    HiddenWrite(EmptyVolume(), b);
    NothingLost(SMALL, EmptyVolume(), HIDDEN, [b]);
  }

  lemma {:induction false} HiddenTarget()
    ensures SlotsOk(EmptyVolume()) && Find(EmptyVolume(), HIDDEN) == Fresh(0)
  {
    var v := EmptyVolume();
    assert forall k :: 0 <= k < 16 ==> IsFree(v.slots[k]);
    TargetUnique(v, HIDDEN, Fresh(0));
  }

  lemma {:induction false} HiddenWrite(v: Volume, b: byte)
    requires ValidGeometry(SMALL) && Shape(SMALL, v) && Find(v, HIDDEN) == Fresh(0) && FirstRun(v.table, 4085, 1) == 2
    ensures Hides(SMALL, v, HIDDEN, [b]) && Write(SMALL, v, HIDDEN, [b]).code == 0 && Need(SMALL, 1) == 1
  {
    hide Find, FirstRun, PutSectors, PutSlot;
    NeededFacts(SMALL, 1);
    NeedCovers(SMALL, 1);
    assert Need(SMALL, 1) == 1;
    assert RunFor(SMALL, v, Fresh(0), 1) == 2;
  }
}
