/** Whole runs of `fat_write_file` on one volume. */
module FatRuns {
  import opened Arithmetic
  import opened Bytes
  import opened FatTable
  import opened FatVolume
  import opened FatTheorems
  import opened FatSteps

  /** One call: the formatted name and the buffer. */
  datatype Call = Call(f: seq<byte>, src: seq<byte>)

  predicate Proper(c: Call) {
    |c.f| == 11 && c.f[0] != 0 && |c.src| < TWO32
  }

  predicate AllProper(calls: seq<Call>) {
    forall i :: 0 <= i < |calls| ==> Proper(calls[i])
  }

  ghost function Next(g: Geometry, v: Volume, c: Call): (w: Volume)
    requires ValidGeometry(g) && Shape(g, v) && Proper(c)
    ensures Shape(g, w)
  {
    WriteShape(g, v, c.f, c.src);
    Write(g, v, c.f, c.src).vol
  }

  ghost function After(g: Geometry, v: Volume, calls: seq<Call>): (w: Volume)
    requires ValidGeometry(g) && Shape(g, v) && AllProper(calls)
    ensures Shape(g, w)
    decreases |calls|
  {
    if calls == [] then v else After(g, Next(g, v, calls[0]), calls[1..])
  }

  /** No call of the run damages the volume it finds. */
  ghost predicate Harmless(g: Geometry, v: Volume, calls: seq<Call>)
    requires ValidGeometry(g) && Shape(g, v) && AllProper(calls)
    decreases |calls|
  {
    calls == [] || (!Damages(g, v, calls[0].f, calls[0].src) && Harmless(g, Next(g, v, calls[0]), calls[1..]))
  }

  /** Every volume along the run, the first and the last included, is well-formed. */
  ghost predicate WellFormedAlong(g: Geometry, v: Volume, calls: seq<Call>)
    requires ValidGeometry(g) && Shape(g, v) && AllProper(calls)
    decreases |calls|
  {
    WellFormed(g, v) && (calls == [] || WellFormedAlong(g, Next(g, v, calls[0]), calls[1..]))
  }

  /** The volumes along a run from a well-formed one are all well-formed exactly when the run is harmless. */
  lemma {:induction false} WellFormedIffHarmless(g: Geometry, v: Volume, calls: seq<Call>)
    requires ValidGeometry(g) && WellFormed(g, v) && AllProper(calls)
    ensures WellFormedAlong(g, v, calls) <==> Harmless(g, v, calls)
    decreases |calls|
  {
    if calls != [] {
      WriteKeepsWellFormed(g, v, calls[0].f, calls[0].src);
      hide WellFormed, Damages, Write;
      if WellFormed(g, Next(g, v, calls[0])) {
        WellFormedIffHarmless(g, Next(g, v, calls[0]), calls[1..]);
      } else {
        assert !WellFormedAlong(g, Next(g, v, calls[0]), calls[1..]);
      }
    }
  }

  /** In particular a harmless run ends in a well-formed volume. */
  lemma {:induction false} RunKeepsWellFormed(g: Geometry, v: Volume, calls: seq<Call>)
    requires ValidGeometry(g) && WellFormed(g, v) && AllProper(calls) && Harmless(g, v, calls)
    ensures WellFormed(g, After(g, v, calls))
    decreases |calls|
  {
    if calls != [] {
      WriteKeepsWellFormed(g, v, calls[0].f, calls[0].src);
      hide WellFormed, Damages, Write;
      RunKeepsWellFormed(g, Next(g, v, calls[0]), calls[1..]);
    }
  }

  // ---------------------------------------------------------------- a file over time

  lemma {:induction false} OtherName(v: Volume, f: seq<byte>, j: nat)
    requires SlotsOk(v) && j < |v.slots| && Owner(v, j) && v.slots[j][..11] != f
    ensures Find(v, f).Full? || Find(v, f).k != j
  {
  }

  /** The table after a write: entries freed to zero, then a free run linked. */
  ghost predicate Rewritten(t: seq<nat>, tf: seq<nat>, t': seq<nat>, c: nat, n: nat) {
    && |tf| == |t| == |t'| && c + n <= |t|
    && (forall x :: 0 <= x < |t| ==> tf[x] == t[x] || tf[x] == 0)
    && (forall x :: c <= x < c + n ==> tf[x] == 0 && (t'[x] == 0xFFFF || (t'[x] == x + 1 < c + n)))
    && (forall x :: 0 <= x < |t| && !(c <= x < c + n) ==> t'[x] == tf[x])
  }

  /** In the new table a walk comes to a cluster that was in use only the way it did before. */
  lemma {:induction false} WalkBefore(t: seq<nat>, tf: seq<nat>, t': seq<nat>, c: nat, n: nat, start: nat, i: nat)
    requires Rewritten(t, tf, t', c, n)
    ensures var y := Walk(t', start, i);
      Link(y) && y < |t| && tf[y] != 0 ==> Walk(t, start, i) == y && (start < |t| ==> tf[start] != 0)
  {
    if i > 0 {
      WalkBefore(t, tf, t', c, n, start, i - 1);
      var p := Walk(t', start, i - 1);
      assert c <= p < c + n ==> t'[p] == 0xFFFF || tf[t'[p]] == 0;
    }
  }

  /** Links that led past a chain in use still do, and so do those of a new or empty file. */
  lemma {:induction false} StillPast(t: seq<nat>, tf: seq<nat>, t': seq<nat>, c: nat, n: nat, start: nat, chain: seq<nat>)
    requires Rewritten(t, tf, t', c, n)
    requires forall x :: x in chain ==> x < |t| && tf[x] != 0
    requires LeadsPast(t, start, chain) || !Link(start) || (start < |t| && tf[start] == 0)
    ensures LeadsPast(t', start, chain)
  {
    forall x | x in chain
      ensures !Reachable(t', start, x)
    {
      ReachedBefore(t, tf, t', c, n, start, x);
    }
  }

  lemma {:induction false} ReachedBefore(t: seq<nat>, tf: seq<nat>, t': seq<nat>, c: nat, n: nat, start: nat, x: nat)
    requires Rewritten(t, tf, t', c, n) && x < |t| && tf[x] != 0
    ensures Reachable(t', start, x) ==> Reachable(t, start, x) && Link(start) && (start < |t| ==> tf[start] != 0)
  {
    if Reachable(t', start, x) {
      var i: nat :| Walk(t', start, i) == x;
      WalkBefore(t, tf, t', c, n, start, i);
      WalkFromEnd(t, start, i);
    }
  }

  lemma {:induction false} WalkFromEnd(t: seq<nat>, start: nat, i: nat)
    ensures !Link(start) ==> !Link(Walk(t, start, i))
  {
    if i > 0 {
      WalkFromEnd(t, start, i - 1);
    }
  }

  /** A write rewrites the table, and the written entry then points to nothing or into clusters that
      were free. */
  lemma {:induction false} TableRewritten(g: Geometry, v: Volume, f: seq<byte>, src: seq<byte>) returns (c: nat, n: nat)
    requires ValidGeometry(g) && Shape(g, v) && |f| == 11 && |src| < TWO32 && !Find(v, f).Full?
    ensures var o, t := Write(g, v, f, src), Find(v, f);
      var tf := TableAfterFree(v, t);
      && Shape(g, o.vol) && Rewritten(v.table, tf, o.vol.table, c, n)
      && (o.code == 0 ==>
            var first := FirstCluster(o.vol.slots[t.k]); !Link(first) || (first < |tf| && tf[first] == 0))
  {
    WriteShape(g, v, f, src);
    var t := Find(v, f);
    var tf := TableAfterFree(v, t);
    assert forall x :: 0 <= x < |tf| ==> tf[x] == v.table[x] || tf[x] == 0;
    hide TableAfterFree, Find, PutSectors;
    c, n := 0, 0;
    if src != [] && RunFor(g, v, t, |src|) != 0 {
      c, n := RunFor(g, v, t, |src|), Needed32(g, |src|);
      assert RunFree(tf, c, RunLength(n)) && tf[c] == 0;
    }
  }

  // ---------------------------------------------------------------- what threatens a file

  /** The file is whole, and nothing live stands behind an end marker of the directory. */
  ghost predicate Whole(g: Geometry, v: Volume, j: nat)
    requires ValidGeometry(g) && Shape(g, v)
  {
    CleanTail(v) && Owner(v, j) && SlotOk(g, v, j)
  }

  /** A call could pick this other name: it has an entry, and that entry's links lead into the file. */
  ghost predicate Threatens(g: Geometry, v: Volume, j: nat, f: seq<byte>)
    requires ValidGeometry(g) && Shape(g, v) && j < |v.slots|
  {
    && |f| == 11 && f[0] != 0 && f != v.slots[j][..11] && Find(v, f).Existing?
    && !LeadsPast(v.table, FirstCluster(v.slots[Find(v, f).k]), SlotChain(g, v, j))
  }

  ghost predicate Unthreatened(g: Geometry, v: Volume, j: nat)
    requires ValidGeometry(g) && Shape(g, v) && j < |v.slots|
  {
    forall f :: !Threatens(g, v, j, f)
  }

  lemma {:induction false} UnthreatenedIsSpared(g: Geometry, v: Volume, j: nat, f: seq<byte>)
    requires ValidGeometry(g) && Shape(g, v) && Whole(g, v, j) && Unthreatened(g, v, j)
    requires |f| == 11 && f[0] != 0 && f != v.slots[j][..11]
    ensures Spares(g, v, j, f)
  {
    OtherName(v, f, j);
    assert !Threatens(g, v, j, f);
    hide Find, LeadsPast, CleanTail, SlotOk, SlotChain;
  }

  /** An existing target other than the entry just written was the target of that name before. */
  lemma {:induction false} SameTarget(g: Geometry, v: Volume, c: Call, f: seq<byte>)
    requires ValidGeometry(g) && Shape(g, v) && CleanTail(v) && Proper(c) && !Find(v, c.f).Full?
    requires Find(Next(g, v, c), f).Existing?
    requires Write(g, v, c.f, c.src).code == 0 ==> Find(Next(g, v, c), f).k != Find(v, c.f).k
    ensures Find(v, f) == Find(Next(g, v, c), f) && Next(g, v, c).slots[Find(v, f).k] == v.slots[Find(v, f).k]
  {
    var w, k := Next(g, v, c), Find(Next(g, v, c), f).k;
    WriteShape(g, v, c.f, c.src);
    OwnerBefore(g, v, c, k);
    hide Write;
    forall j | 0 <= j < k
      ensures !Matches(v, f, j)
    {
      assert !Matches(w, f, j);
      MatchAfter(g, v, c, f, j);
    }
    TargetUnique(v, f, Existing(k));
  }

  /** A slot that had the name before has it still. */
  lemma {:induction false} MatchAfter(g: Geometry, v: Volume, c: Call, f: seq<byte>, j: nat)
    requires ValidGeometry(g) && Shape(g, v) && CleanTail(v) && Proper(c) && !Find(v, c.f).Full? && j < |v.slots|
    ensures Matches(v, f, j) ==> Matches(Next(g, v, c), f, j)
  {
    var w, t := Next(g, v, c), Find(v, c.f);
    WriteShape(g, v, c.f, c.src);
    hide Write;
    if Write(g, v, c.f, c.src).code == 0 {
      assert t.Existing? ==> v.slots[t.k][0] == v.slots[t.k][..11][0] == c.f[0];
      assert w.slots[t.k][0] == w.slots[t.k][..11][0] == c.f[0];
      DirectoryFrame(v, w, c.f, j);
    } else {
      assert w.slots == v.slots;
      assert Reached(w, j) <==> Reached(v, j);
    }
  }

  /** A write of another name leaves a whole file whole, and unthreatened if it was. */
  lemma {:induction false} UnthreatenedStep(g: Geometry, v: Volume, c: Call, j: nat)
    requires ValidGeometry(g) && Shape(g, v) && Whole(g, v, j) && Unthreatened(g, v, j)
    requires Proper(c) && c.f != v.slots[j][..11]
    ensures var w := Next(g, v, c);
      Whole(g, w, j) && Unthreatened(g, w, j) && w.slots[j] == v.slots[j] && FileBytes(g, w, j) == FileBytes(g, v, j)
  {
    var w := Next(g, v, c);
    UnthreatenedIsSpared(g, v, j, c.f);
    SparedUntouched(g, v, c.f, c.src, j);
    hide Write, SlotOk, FileBytes, Owner, CleanTail, LeadsPast, SlotChain, Find;
    if Find(v, c.f).Full? {
      FullChangesNothing(g, v, c);
    } else {
      forall f
        ensures !Threatens(g, w, j, f)
      {
        NoNewThreat(g, v, c, j, f);
      }
    }
  }

  lemma {:induction false} NoNewThreat(g: Geometry, v: Volume, c: Call, j: nat, f: seq<byte>)
    requires ValidGeometry(g) && Shape(g, v) && Whole(g, v, j) && Unthreatened(g, v, j)
    requires Proper(c) && Spares(g, v, j, c.f) && !Find(v, c.f).Full?
    requires var w := Next(g, v, c); w.slots[j] == v.slots[j] && SlotChain(g, w, j) == SlotChain(g, v, j)
    ensures !Threatens(g, Next(g, v, c), j, f)
  {
    var w, t := Next(g, v, c), Find(v, c.f);
    if |f| == 11 && f[0] != 0 && f != v.slots[j][..11] && Find(w, f).Existing? {
      var k := Find(w, f).k;
      var first, n := TableRewritten(g, v, c.f, c.src);
      SparedStaysUsed(g, v, c.f, j);
      if !(Write(g, v, c.f, c.src).code == 0 && k == t.k) {
        SameTarget(g, v, c, f);
        assert !Threatens(g, v, j, f);
      }
      hide Write, Find, Owner, Rewritten, TableAfterFree, LeadsPast, SlotChain, CleanTail, SlotOk;
      StillPast(v.table, TableAfterFree(v, t), w.table, first, n, FirstCluster(w.slots[k]), SlotChain(g, v, j));
    }
  }

  /** Emptying a name that leads into the file takes a cluster away from it. */
  lemma {:induction false} ThreatCuts(g: Geometry, v: Volume, j: nat, f: seq<byte>)
    requires ValidGeometry(g) && Shape(g, v) && Whole(g, v, j) && Threatens(g, v, j, f)
    ensures !SlotOk(g, Next(g, v, Call(f, [])), j)
  {
    var w, t := Next(g, v, Call(f, [])), Find(v, f);
    OtherName(v, f, j);
    WriteShape(g, v, f, []);
    var first, own := FirstCluster(v.slots[t.k]), FirstCluster(v.slots[j]);
    var x :| x in SlotChain(g, v, j) && Reachable(v.table, first, x);
    var i: nat :| Walk(v.table, first, i) == x;
    WalkFromEnd(v.table, first, i);
    assert w.table == Freed(v.table, first) && w.slots[j] == v.slots[j];
    hide Find, Write, Owner, CleanTail, Length, Walk;
    CutChain(v.table, first, g.clusters + 2, own, Length(g, v, j), x, Length(g, w, j));
  }

  /** Freeing the clusters reachable from `first` breaks every chain that has one of them. */
  lemma {:induction false} CutChain(t: seq<nat>, first: nat, bound: nat, c: nat, n: nat, x: nat, m: nat)
    requires bound <= |t| && bound <= 0xFFF8 && ChainOk(t, bound, c, n) && x in Chain(t, c, n) && Reachable(t, first, x)
    ensures !ChainOk(Freed(t, first), bound, c, m)
  {
    ChainBounds(t, bound, c, n);
    hide Reachable;
    if ChainOk(Freed(t, first), bound, c, m) {
      ChainBefore(t, Freed(t, first), bound, c, m);
      ChainLengthUnique(t, bound, c, m, n);
    }
  }

  /** The run, if it never names the file, keeps its entry and its bytes. */
  ghost predicate Keeps(g: Geometry, v: Volume, j: nat, calls: seq<Call>)
    requires ValidGeometry(g) && Shape(g, v) && Whole(g, v, j)
  {
    AllProper(calls) && NeverNames(calls, v.slots[j][..11]) ==>
      var w := After(g, v, calls);
      Owner(w, j) && w.slots[j] == v.slots[j] && SlotOk(g, w, j) && FileBytes(g, w, j) == FileBytes(g, v, j)
  }

  predicate NeverNames(calls: seq<Call>, f: seq<byte>) {
    forall i :: 0 <= i < |calls| ==> calls[i].f != f
  }

  /** A whole file that nothing threatens keeps its entry and its bytes, whatever the run does. */
  lemma {:induction false} UnthreatenedRun(g: Geometry, v: Volume, calls: seq<Call>, j: nat)
    requires ValidGeometry(g) && Shape(g, v) && Whole(g, v, j) && Unthreatened(g, v, j)
    requires AllProper(calls) && NeverNames(calls, v.slots[j][..11])
    ensures var w := After(g, v, calls);
      Whole(g, w, j) && Unthreatened(g, w, j) && w.slots[j] == v.slots[j] && FileBytes(g, w, j) == FileBytes(g, v, j)
    decreases |calls|
  {
    if calls != [] {
      UnthreatenedStep(g, v, calls[0], j);
      hide Next, FileBytes, SlotOk, Owner, CleanTail, Unthreatened;
      UnthreatenedRun(g, Next(g, v, calls[0]), calls[1..], j);
    }
  }

  /** Exactly when a whole file is safe, on any volume: every run that does not name it keeps it if and only
      if no other name a call could pick leads into its clusters. */
  lemma {:induction false} SafeIffUnthreatened(g: Geometry, v: Volume, j: nat)
    requires ValidGeometry(g) && Shape(g, v) && Whole(g, v, j)
    ensures Unthreatened(g, v, j) <==> forall calls :: Keeps(g, v, j, calls)
  {
    if Unthreatened(g, v, j) {
      forall calls
        ensures Keeps(g, v, j, calls)
      {
        hide Unthreatened;
        if AllProper(calls) && NeverNames(calls, v.slots[j][..11]) {
          UnthreatenedRun(g, v, calls, j);
        }
      }
    } else {
      var f :| Threatens(g, v, j, f);
      ThreatCuts(g, v, j, f);
      OneCall(g, v, Call(f, []));
      hide Threatens, Whole, SlotOk, Owner, After;
      assert !Keeps(g, v, j, [Call(f, [])]);
    }
  }

  lemma {:induction false} OneCall(g: Geometry, v: Volume, c: Call)
    requires ValidGeometry(g) && Shape(g, v) && Proper(c)
    ensures AllProper([c]) && After(g, v, [c]) == Next(g, v, c)
  {
    assert [c][1..] == [];
    assert After(g, Next(g, v, c), []) == Next(g, v, c);
  }

  lemma {:induction false} FullChangesNothing(g: Geometry, v: Volume, c: Call)
    requires ValidGeometry(g) && Shape(g, v) && Proper(c) && Find(v, c.f).Full?
    ensures Next(g, v, c) == v
  {
  }

  /** Every owner but the written entry was one before, with the same entry. */
  lemma {:induction false} OwnerBefore(g: Geometry, v: Volume, c: Call, k: nat)
    requires ValidGeometry(g) && Shape(g, v) && CleanTail(v) && Proper(c) && !Find(v, c.f).Full?
    requires k < |v.slots| && Owner(Next(g, v, c), k)
    ensures var w := Next(g, v, c);
      (Write(g, v, c.f, c.src).code == 0 && k == Find(v, c.f).k) || (Owner(v, k) && w.slots[k] == v.slots[k])
  {
    var w := Next(g, v, c);
    WriteShape(g, v, c.f, c.src);
    if Write(g, v, c.f, c.src).code == 0 {
      hide Write, Find;
      DirectoryFrame(v, w, c.f, k);
    } else {
      assert w.slots == v.slots;
    }
  }

  /** From a well-formed volume, every file that no call names keeps its entry and its bytes through any
      run at all, damaging calls included. */
  lemma {:induction false} RunKeepsFile(g: Geometry, v: Volume, calls: seq<Call>, j: nat)
    requires ValidGeometry(g) && WellFormed(g, v) && AllProper(calls) && Owner(v, j)
    requires NeverNames(calls, v.slots[j][..11])
    ensures SlotOk(g, v, j)
    ensures var w := After(g, v, calls);
      j < |w.slots| && w.slots[j] == v.slots[j] && Owner(w, j) && SlotOk(g, w, j) && FileBytes(g, w, j) == FileBytes(g, v, j)
  {
    WellFormedUnthreatened(g, v, j);
    hide WellFormed, After, FileBytes, Unthreatened;
    UnthreatenedRun(g, v, calls, j);
  }

  lemma {:induction false} WellFormedUnthreatened(g: Geometry, v: Volume, j: nat)
    requires ValidGeometry(g) && WellFormed(g, v) && Owner(v, j)
    ensures Whole(g, v, j) && Unthreatened(g, v, j)
  {
    WellFormedProtects(g, v, j);
    forall f
      ensures !Threatens(g, v, j, f)
    {
      if |f| == 11 && f != v.slots[j][..11] {
        OtherName(v, f, j);
        ProtectedIsSpared(g, v, j, f);
      }
    }
  }

  /** The entry is there, under this name, with these bytes. */
  ghost predicate Stores(g: Geometry, v: Volume, k: nat, f: seq<byte>, src: seq<byte>)
    requires ValidGeometry(g) && Shape(g, v)
  {
    Owner(v, k) && v.slots[k][..11] == f && SlotOk(g, v, k) && FileBytes(g, v, k) == src
  }

  lemma {:induction false} WrittenIsOwner(g: Geometry, v: Volume, f: seq<byte>, src: seq<byte>)
    requires ValidGeometry(g) && Shape(g, v) && CleanTail(v) && Proper(Call(f, src)) && Write(g, v, f, src).code == 0
    ensures !Find(v, f).Full?
    ensures var w, k := Next(g, v, Call(f, src)), Find(v, f).k;
      k < |w.slots| && w.slots[k][..11] == f && (Owner(w, k) <==> f[0] != 0xE5)
  {
    WriteShape(g, v, f, src);
    hide Write, Find;
    var w, k := Write(g, v, f, src).vol, Find(v, f).k;
    DirectoryFrame(v, w, f, k);
    assert w.slots[k][0] == w.slots[k][..11][0] == f[0];
  }

  /** The run, if it never uses the name, leaves the entry with these bytes. */
  ghost predicate StoresAfter(g: Geometry, v: Volume, calls: seq<Call>, k: nat, f: seq<byte>, src: seq<byte>)
    requires ValidGeometry(g) && Shape(g, v)
  {
    AllProper(calls) && NeverNames(calls, f) ==> Stores(g, After(g, v, calls), k, f, src)
  }

  /** What a successful write stores is what its entry holds after every run of calls with other names,
      damaging ones included, exactly when the size does not wrap, the name does not start with the byte
      that marks an entry as deleted, and no other entry leads into the new file. */
  lemma {:induction false} StoredStays(g: Geometry, v: Volume, f: seq<byte>, src: seq<byte>)
    requires ValidGeometry(g) && Shape(g, v) && CleanTail(v) && Proper(Call(f, src)) && Write(g, v, f, src).code == 0
    ensures !Find(v, f).Full?
    ensures var w, k := Next(g, v, Call(f, src)), Find(v, f).k;
      (forall calls :: StoresAfter(g, w, calls, k, f, src)) <==> f[0] != 0xE5 && !Wraps(g, |src|) && Unthreatened(g, w, k)
  {
    WrittenIsOwner(g, v, f, src);
    var w, k := Next(g, v, Call(f, src)), Find(v, f).k;
    hide Write, Find, CleanTail, Unthreatened, Stores, Wraps;
    if f[0] != 0xE5 && !Wraps(g, |src|) {
      StoredFirst(g, v, f, src);
      if Unthreatened(g, w, k) {
        forall calls
          ensures StoresAfter(g, w, calls, k, f, src)
        {
          StoresLater(g, w, calls, k, f, src);
        }
      } else {
        StoresNotAlways(g, w, k, f, src);
      }
    } else {
      NotStored(g, v, f, src);
      assert After(g, w, []) == w;
      assert !StoresAfter(g, w, [], k, f, src);
    }
  }

  /** On a well-formed volume nothing leads into the new file. */
  lemma {:induction false} StoredStaysWellFormed(g: Geometry, v: Volume, f: seq<byte>, src: seq<byte>)
    requires ValidGeometry(g) && WellFormed(g, v) && Proper(Call(f, src)) && Write(g, v, f, src).code == 0
    ensures !Find(v, f).Full?
    ensures var w, k := Next(g, v, Call(f, src)), Find(v, f).k;
      (forall calls :: StoresAfter(g, w, calls, k, f, src)) <==> f[0] != 0xE5 && !Wraps(g, |src|)
  {
    assert Shape(g, v) && CleanTail(v);
    StoredStays(g, v, f, src);
    WrittenIsOwner(g, v, f, src);
    WriteKeepsWellFormed(g, v, f, src);
    var w, k := Next(g, v, Call(f, src)), Find(v, f).k;
    hide Write, Find, CleanTail, Unthreatened, StoresAfter, Wraps, WellFormed;
    if f[0] != 0xE5 && !Wraps(g, |src|) {
      WellFormedUnthreatened(g, w, k);
    }
  }

  lemma {:induction false} StoredFirst(g: Geometry, v: Volume, f: seq<byte>, src: seq<byte>)
    requires ValidGeometry(g) && Shape(g, v) && CleanTail(v) && Proper(Call(f, src))
    requires Write(g, v, f, src).code == 0 && !Wraps(g, |src|) && f[0] != 0xE5
    ensures var w := Next(g, v, Call(f, src));
      !Find(v, f).Full? && Stores(g, w, Find(v, f).k, f, src) && Whole(g, w, Find(v, f).k)
  {
    StoredFile(g, v, f, src);
    WrittenIsOwner(g, v, f, src);
    WriteShape(g, v, f, src);
    hide Write, Find, FileBytes, SlotOk, CleanTail;
    CleanTailKept(v, Next(g, v, Call(f, src)), f);
  }

  lemma {:induction false} StoresLater(g: Geometry, v: Volume, calls: seq<Call>, k: nat, f: seq<byte>, src: seq<byte>)
    requires ValidGeometry(g) && Shape(g, v) && Stores(g, v, k, f, src) && Whole(g, v, k) && Unthreatened(g, v, k)
    ensures StoresAfter(g, v, calls, k, f, src)
  {
    hide FileBytes, After, Unthreatened, CleanTail;
    if AllProper(calls) && NeverNames(calls, f) {
      UnthreatenedRun(g, v, calls, k);
    }
  }

  lemma {:induction false} StoresNotAlways(g: Geometry, v: Volume, k: nat, f: seq<byte>, src: seq<byte>)
    requires ValidGeometry(g) && Shape(g, v) && Stores(g, v, k, f, src) && Whole(g, v, k) && !Unthreatened(g, v, k)
    ensures exists calls :: !StoresAfter(g, v, calls, k, f, src)
  {
    var f' :| Threatens(g, v, k, f');
    ThreatCuts(g, v, k, f');
    OneCall(g, v, Call(f', []));
    hide Whole, SlotOk, Owner, After, FileBytes;
    assert !StoresAfter(g, v, [Call(f', [])], k, f, src);
  }

  /** A hidden or wrapped file is not there even at once. */
  lemma {:induction false} NotStored(g: Geometry, v: Volume, f: seq<byte>, src: seq<byte>)
    requires ValidGeometry(g) && Shape(g, v) && Proper(Call(f, src)) && Write(g, v, f, src).code == 0 && !Find(v, f).Full?
    requires f[0] == 0xE5 || Wraps(g, |src|)
    ensures !Stores(g, Next(g, v, Call(f, src)), Find(v, f).k, f, src)
  {
    var w, k := Next(g, v, Call(f, src)), Find(v, f).k;
    if f[0] == 0xE5 {
      HiddenNever(g, w, k, f, src);
    } else {
      StoredWrapped(g, v, f, src);
      hide Write, Find, Length, FileBytes;
      FreeStartBreaksChain(w.table, g.clusters + 2, FirstCluster(w.slots[k]), Length(g, w, k));
    }
  }

  lemma {:induction false} HiddenNever(g: Geometry, v: Volume, k: nat, f: seq<byte>, src: seq<byte>)
    requires ValidGeometry(g) && Shape(g, v) && |f| == 11 && f[0] == 0xE5
    ensures !Stores(g, v, k, f, src)
  {
    hide SlotOk, FileBytes;
    if Owner(v, k) {
      DeletedMark(v, k, f);
    }
  }

  lemma {:induction false} DeletedMark(v: Volume, k: nat, f: seq<byte>)
    requires SlotsOk(v) && |f| == 11 && f[0] == 0xE5 && Owner(v, k)
    ensures v.slots[k][..11] != f
  {
    assert v.slots[k][0] == v.slots[k][..11][0];
  }

  // ---------------------------------------------------------------- no cluster is lost

  ghost function Claim(g: Geometry, v: Volume, k: nat): nat
    requires g.spc > 0 && g.clusters + 2 <= |v.table| && SlotsOk(v) && k < |v.slots|
  {
    if Owner(v, k) then Length(g, v, k) else 0
  }

  /** Clusters that the first `n` directory slots claim. */
  ghost function Claimed(g: Geometry, v: Volume, n: nat): nat
    requires g.spc > 0 && g.clusters + 2 <= |v.table| && SlotsOk(v) && n <= |v.slots|
  {
    if n == 0 then 0 else Claimed(g, v, n - 1) + Claim(g, v, n - 1)
  }

  lemma {:induction false} ClaimedUpdate(g: Geometry, v: Volume, w: Volume, k: nat, n: nat)
    requires g.spc > 0 && g.clusters + 2 <= |v.table| == |w.table|
    requires SlotsOk(v) && SlotsOk(w) && |w.slots| == |v.slots| && n <= |v.slots| && k < |v.slots|
    requires forall j :: 0 <= j < |v.slots| && j != k ==> Claim(g, w, j) == Claim(g, v, j)
    ensures Claimed(g, w, n) == Claimed(g, v, n) + if k < n then Claim(g, w, k) - Claim(g, v, k) else 0
  {
    if n > 0 {
      ClaimedUpdate(g, v, w, k, n - 1);
    }
  }

  /** Free clusters plus clusters the directory claims. */
  ghost function Accounted(g: Geometry, v: Volume): nat
    requires ValidGeometry(g) && Shape(g, v)
  {
    FreeClusters(g, v) + Claimed(g, v, |v.slots|)
  }

  /** The size of the written entry. */
  lemma {:induction false} WrittenSize(g: Geometry, v: Volume, f: seq<byte>, src: seq<byte>)
    requires ValidGeometry(g) && Shape(g, v) && Proper(Call(f, src)) && Write(g, v, f, src).code == 0
    ensures !Find(v, f).Full?
    ensures var s := Next(g, v, Call(f, src)).slots[Find(v, f).k]; Size(s) == |src| && !IsDirectory(s)
  {
    hide Find, TableAfterFree, PutSectors;
  }

  lemma {:induction false} ClaimsOfStored(g: Geometry, v: Volume, f: seq<byte>, src: seq<byte>)
    requires ValidGeometry(g) && WellFormed(g, v) && Proper(Call(f, src)) && Write(g, v, f, src).code == 0
    ensures !Find(v, f).Full?
    ensures var w, k := Next(g, v, Call(f, src)), Find(v, f).k;
      && Claim(g, w, k) == (if f[0] != 0xE5 then Need(g, |src|) else 0) && Claim(g, v, k) == OldLength(g, v, f)
      && forall j :: 0 <= j < |v.slots| && j != k ==> Claim(g, w, j) == Claim(g, v, j)
  {
    WrittenIsOwner(g, v, f, src);
    WrittenSize(g, v, f, src);
    WriteShape(g, v, f, src);
    var w, k := Next(g, v, Call(f, src)), Find(v, f).k;
    hide Write, Find, EndLength;
    assert Find(v, f).Fresh? ==> !Owner(v, k) by { TargetKind(v, f); }
    assert Find(v, f).Existing? ==> Owner(v, k) by { TargetKind(v, f); }
    forall j | 0 <= j < |v.slots| && j != k
      ensures Claim(g, w, j) == Claim(g, v, j)
    {
      ClaimKept(g, v, f, src, j);
    }
  }

  lemma {:induction false} TargetKind(v: Volume, f: seq<byte>)
    requires SlotsOk(v) && !Find(v, f).Full?
    ensures Owner(v, Find(v, f).k) <==> Find(v, f).Existing?
  {
  }

  /** Another entry claims what it claimed. */
  lemma {:induction false} ClaimKept(g: Geometry, v: Volume, f: seq<byte>, src: seq<byte>, j: nat)
    requires ValidGeometry(g) && WellFormed(g, v) && Proper(Call(f, src)) && !Find(v, f).Full?
    requires j < |v.slots| && j != Find(v, f).k
    ensures Claim(g, Next(g, v, Call(f, src)), j) == Claim(g, v, j)
  {
    var w := Next(g, v, Call(f, src));
    WriteShape(g, v, f, src);
    if Owner(v, j) {
      OtherFilesUntouched(g, v, f, src, j);
    } else if Owner(w, j) {
      OwnerBefore(g, v, Call(f, src), j);
    }
    hide WellFormed, Write, Find, Length;
  }

  /** The call stores data under a name that marks its own entry as deleted. */
  ghost predicate Hides(g: Geometry, v: Volume, f: seq<byte>, src: seq<byte>)
    requires ValidGeometry(g) && Shape(g, v) && |f| == 11 && |src| < TWO32
  {
    f[0] == 0xE5 && src != [] && !Wraps(g, |src|) && !Find(v, f).Full? && RunFor(g, v, Find(v, f), |src|) != 0
  }

  /** What happens to the accounted clusters when a call succeeds. */
  lemma {:induction false} StoredAccount(g: Geometry, v: Volume, f: seq<byte>, src: seq<byte>)
    requires ValidGeometry(g) && WellFormed(g, v) && Proper(Call(f, src)) && Write(g, v, f, src).code == 0
    ensures Accounted(g, Next(g, v, Call(f, src))) == Accounted(g, v)
      + (if f[0] != 0xE5 then Need(g, |src|) else 0) - (if Wraps(g, |src|) then 0 else Need(g, |src|))
  {
    var w := Next(g, v, Call(f, src));
    WellFormedTarget(g, v, f);
    FreeSpaceConserved(g, v, f, src);
    ClaimsOfStored(g, v, f, src);
    WriteShape(g, v, f, src);
    hide WellFormed, Write, Find, Claim, FreeClusters, OldLength, Wraps;
    ClaimedUpdate(g, v, w, Find(v, f).k, |v.slots|);
  }

  /** A failed overwrite of a subdirectory gives its clusters back, and its entry claims none any more. */
  ghost predicate CutsDirectory(g: Geometry, v: Volume, f: seq<byte>, src: seq<byte>)
    requires ValidGeometry(g) && Shape(g, v) && |f| == 11 && |src| < TWO32
  {
    var t := Find(v, f);
    t.Existing? && IsDirectory(v.slots[t.k]) && src != [] && RunFor(g, v, t, |src|) == 0
  }

  /** And when it fails after the old chain was given back. */
  lemma {:induction false} FailedAccount(g: Geometry, v: Volume, f: seq<byte>, src: seq<byte>)
    requires ValidGeometry(g) && WellFormed(g, v) && Proper(Call(f, src)) && Write(g, v, f, src).code != 0
    ensures Accounted(g, Next(g, v, Call(f, src)))
      == Accounted(g, v) + (if CutsDirectory(g, v, f, src) then 0 else OldLength(g, v, f))
    ensures Damages(g, v, f, src) <==> OldLength(g, v, f) > 0
  {
    DamageLength(g, v, f, src);
    FreeSpaceAfter(g, v, f, src);
    if Damages(g, v, f, src) {
      var w, k := Next(g, v, Call(f, src)), Find(v, f).k;
      FailedClaim(g, v, f, src);
      assert Find(v, f).Existing?;
      WriteShape(g, v, f, src);
      forall j | 0 <= j < |v.slots| && j != k
        ensures Claim(g, w, j) == Claim(g, v, j)
      {
        ClaimKept(g, v, f, src, j);
      }
      hide WellFormed, Write, Find, Claim, FreeClusters, OldLength, Damages, CutsDirectory;
      ClaimedUpdate(g, v, w, k, |v.slots|);
    } else {
      KeptWhenFailed(g, v, f, src);
    }
  }

  lemma {:induction false} FreeSpaceAfter(g: Geometry, v: Volume, f: seq<byte>, src: seq<byte>)
    requires ValidGeometry(g) && WellFormed(g, v) && Proper(Call(f, src)) && Write(g, v, f, src).code != 0
    ensures FreeClusters(g, Next(g, v, Call(f, src))) == FreeClusters(g, v) + OldLength(g, v, f)
  {
    WellFormedTarget(g, v, f);
    hide WellFormed, Find, TargetWhole, FreeClusters, OldLength;
    FreeSpaceConserved(g, v, f, src);
  }

  lemma {:induction false} DamageLength(g: Geometry, v: Volume, f: seq<byte>, src: seq<byte>)
    requires ValidGeometry(g) && WellFormed(g, v) && Proper(Call(f, src)) && Write(g, v, f, src).code != 0
    ensures Damages(g, v, f, src) <==> OldLength(g, v, f) > 0
  {
    var t := Find(v, f);
    hide Length;
    assert t.Existing? ==> SlotOk(g, v, t.k);
  }

  /** The entry of a failed overwrite still claims a file's clusters, and none of a subdirectory. */
  lemma {:induction false} FailedClaim(g: Geometry, v: Volume, f: seq<byte>, src: seq<byte>)
    requires ValidGeometry(g) && WellFormed(g, v) && Proper(Call(f, src))
    requires Write(g, v, f, src).code != 0 && Damages(g, v, f, src)
    ensures Find(v, f).Existing?
    ensures var w, k := Next(g, v, Call(f, src)), Find(v, f).k;
      && Claim(g, v, k) == OldLength(g, v, f)
      && Claim(g, w, k) == if CutsDirectory(g, v, f, src) then 0 else OldLength(g, v, f)
  {
    FailedFrees(g, v, f, src);
    var w, k := Next(g, v, Call(f, src)), Find(v, f).k;
    hide Find, FreeSet, TableAfterFree, PutSectors;
    NoEnd(w.table, g.clusters + 2, FirstCluster(w.slots[k]));
  }

  lemma {:induction false} NoEnd(t: seq<nat>, bound: nat, c: nat)
    requires bound <= |t| && 2 <= c < |t| && t[c] == 0
    ensures EndLength(t, bound, c) == 0
  {
    forall n: nat
      ensures !ChainOk(t, bound, c, n)
    {
      FreeStartBreaksChain(t, bound, c, n);
    }
  }

  lemma {:induction false} WellFormedTarget(g: Geometry, v: Volume, f: seq<byte>)
    requires ValidGeometry(g) && WellFormed(g, v)
    ensures TargetWhole(g, v, f)
  {
  }

  /** A call neither loses nor invents a cluster exactly when it does no damage, the emptied entry of a
      subdirectory apart, and does not hide its own entry; if it hides it, the clusters it took are lost. */
  lemma {:induction false} NothingLost(g: Geometry, v: Volume, f: seq<byte>, src: seq<byte>)
    requires ValidGeometry(g) && WellFormed(g, v) && Proper(Call(f, src))
    ensures Accounted(g, Next(g, v, Call(f, src))) == Accounted(g, v)
      <==> (!Damages(g, v, f, src) || CutsDirectory(g, v, f, src)) && !Hides(g, v, f, src)
    ensures Hides(g, v, f, src) ==>
      !Damages(g, v, f, src) && Accounted(g, Next(g, v, Call(f, src))) + Need(g, |src|) == Accounted(g, v) && Need(g, |src|) > 0
  {
    NeedCovers(g, |src|);
    if Write(g, v, f, src).code == 0 {
      StoredAccount(g, v, f, src);
      StoredKind(g, v, f, src);
    } else {
      FailedAccount(g, v, f, src);
      FailedKind(g, v, f, src);
    }
    hide WellFormed, Accounted, Damages, Hides, Write, Next, CutsDirectory, OldLength;
  }

  lemma {:induction false} StoredKind(g: Geometry, v: Volume, f: seq<byte>, src: seq<byte>)
    requires ValidGeometry(g) && Shape(g, v) && Proper(Call(f, src)) && Write(g, v, f, src).code == 0
    ensures Damages(g, v, f, src) <==> Wraps(g, |src|) && f[0] != 0xE5
    ensures !CutsDirectory(g, v, f, src)
    ensures Hides(g, v, f, src) <==> !Wraps(g, |src|) && f[0] == 0xE5 && src != []
  {
    hide Find, PutSectors, TableAfterFree, RunFor;
  }

  lemma {:induction false} FailedKind(g: Geometry, v: Volume, f: seq<byte>, src: seq<byte>)
    requires ValidGeometry(g) && Shape(g, v) && Proper(Call(f, src)) && Write(g, v, f, src).code != 0
    ensures !Hides(g, v, f, src)
  {
    hide Find, PutSectors, TableAfterFree, RunFor;
  }

  /** Clusters lost to entries that their own names hide. */
  ghost function Lost(g: Geometry, v: Volume, calls: seq<Call>): nat
    requires ValidGeometry(g) && Shape(g, v) && AllProper(calls)
    decreases |calls|
  {
    if calls == [] then 0
    else
      (if Hides(g, v, calls[0].f, calls[0].src) then Need(g, |calls[0].src|) else 0) + Lost(g, Next(g, v, calls[0]), calls[1..])
  }

  /** Conservation over runs without damage: free and claimed clusters, and those lost to hidden entries,
      add up to the same number. */
  lemma {:induction false} SpaceConserved(g: Geometry, v: Volume, calls: seq<Call>)
    requires ValidGeometry(g) && WellFormed(g, v) && AllProper(calls) && Harmless(g, v, calls)
    ensures Accounted(g, After(g, v, calls)) + Lost(g, v, calls) == Accounted(g, v)
    decreases |calls|
  {
    if calls != [] {
      NothingLost(g, v, calls[0].f, calls[0].src);
      WriteKeepsWellFormed(g, v, calls[0].f, calls[0].src);
      assert calls[0] == Call(calls[0].f, calls[0].src);
      hide WellFormed, Damages, Write, Accounted, Hides;
      SpaceConserved(g, Next(g, v, calls[0]), calls[1..]);
    }
  }

  // ---------------------------------------------------------------- damaged volumes

  /** Every link and every first cluster lies inside the table, though chains may be cyclic, crossed,
      or lead to free clusters. */
  ghost predicate InRange(v: Volume)
    requires SlotsOk(v)
  {
    && (forall c :: 0 <= c < |v.table| && Link(v.table[c]) ==> v.table[c] < |v.table|)
    && (forall k :: 0 <= k < |v.slots| && Link(FirstCluster(v.slots[k])) ==> FirstCluster(v.slots[k]) < |v.table|)
  }

  lemma {:induction false} WalkInRange(t: seq<nat>, start: nat, i: nat)
    requires forall c :: 0 <= c < |t| && Link(t[c]) ==> t[c] < |t|
    requires Link(start) ==> start < |t|
    ensures Link(Walk(t, start, i)) ==> Walk(t, start, i) < |t|
  {
    if i > 0 {
      WalkInRange(t, start, i - 1);
    }
  }

  lemma {:induction false} InRangeIsReplaceable(v: Volume, f: seq<byte>)
    requires SlotsOk(v) && InRange(v)
    ensures Replaceable(v, f)
  {
    var t := Find(v, f);
    if t.Existing? {
      var start := FirstCluster(v.slots[t.k]);
      forall c: nat | Reachable(v.table, start, c)
        ensures c < |v.table|
      {
        var i: nat :| Walk(v.table, start, i) == c;
        WalkInRange(v.table, start, i);
      }
    }
  }

  lemma {:induction false} WriteKeepsInRange(g: Geometry, v: Volume, c: Call)
    requires ValidGeometry(g) && Shape(g, v) && Proper(c) && InRange(v)
    ensures InRange(Next(g, v, c))
  {
    var t, w := Find(v, c.f), Next(g, v, c);
    if !t.Full? {
      var table := TableAfterFree(v, t);
      assert forall x :: 0 <= x < |table| ==> table[x] == v.table[x] || table[x] == 0;
      if c.src != [] {
        var n, first := Needed32(g, |c.src|), RunFor(g, v, t, |c.src|);
        hide TableAfterFree, Find, RunFree;
        assert first != 0 ==> first + n <= |table|;
      }
    }
  }

  /** Any run at all, damaging calls included, leaves a volume on which the next call still stops and
      stays inside the table. */
  lemma {:induction false} RunStaysReplaceable(g: Geometry, v: Volume, calls: seq<Call>, f: seq<byte>)
    requires ValidGeometry(g) && Shape(g, v) && AllProper(calls) && InRange(v)
    ensures Replaceable(After(g, v, calls), f)
    decreases |calls|
  {
    if calls == [] {
      InRangeIsReplaceable(v, f);
    } else {
      WriteKeepsInRange(g, v, calls[0]);
      hide InRange, Replaceable, Next;
      RunStaysReplaceable(g, Next(g, v, calls[0]), calls[1..], f);
    }
  }
}
