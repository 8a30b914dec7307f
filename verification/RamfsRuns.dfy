/** What every operation of the RAM file system does to the map it stands for, and what holds over
    whole runs in which the rest of the kernel uses the same heap and memory. */
module RamfsRuns {
  import opened Arithmetic
  import opened Sequences
  import opened Bytes
  import opened HeapBlocks
  import opened HeapMemory
  import H = HeapRuns
  import opened RamfsTree

  // ---------------------------------------------------------------- the heap works around the files

  /** No node but `id` has its data here. */
  ghost predicate Unclaimed(nodes: seq<Node>, p: nat, id: int) {
    forall j :: 0 <= j < |nodes| && j != id ==> nodes[j].data != p
  }

  /** `kmalloc` and `kfree` as seen by a client that keeps track of what is live. */
  lemma {:induction false} HeapAllocates(h: H.HeapState, a: nat, e: nat, size: nat)
    requires H.Inv(h, a, e) && size < TWO32 && Malloc(h.blocks, size).ptr != 0
    ensures var h', p := H.Step(h, H.Alloc(size)), Malloc(h.blocks, size).ptr;
      H.Inv(h', a, e) && p !in h.live && h'.live == h.live[p := size] && h'.blocks == Malloc(h.blocks, size).blocks
  {
    hide Malloc, H.Inv;
    H.AllocStep(h, a, e, size);
    H.FreshPointer(h, a, e, size);
  }

  lemma {:induction false} HeapReleases(h: H.HeapState, a: nat, e: nat, p: nat)
    requires H.Inv(h, a, e) && p in h.live
    ensures var h' := H.Step(h, H.Release(p));
      H.Inv(h', a, e) && h'.live == h.live - {p} && h'.blocks == Free(h.blocks, p)
    ensures IndexOf(h.blocks, p) < |h.blocks|
  {
    hide Free, H.Inv;
    H.ReleaseStep(h, a, e, p);
  }

  /** The operation frees no block of a node. */
  ghost predicate SparesNodes(s: Fs, op: H.Op) {
    H.Allowed(s.heap, op) && (op.Release? ==> Unclaimed(s.nodes, op.ptr, -1))
  }

  /** Every block of a node stays live. */
  lemma {:induction false} NodesStayLive(s: Fs, a: nat, e: nat, op: H.Op, j: nat)
    requires Backed(s, a, e) && SparesNodes(s, op) && j < |s.nodes|
    ensures NodeOk(s.nodes[j], j, H.Step(s.heap, op).live, a, e)
  {
    hide H.Inv, Malloc, Free;
    assert NodeOk(s.nodes[j], j, s.heap.live, a, e);
    match op {
      case Alloc(request) =>
        if Malloc(s.heap.blocks, request).ptr != 0 {
          HeapAllocates(s.heap, a, e, request);
        }
      case Release(ptr) =>
        HeapReleases(s.heap, a, e, ptr);
    }
  }

  /** Header writes miss the data of every node. */
  lemma {:induction false} HeapKeepsNode(s: Fs, a: nat, e: nat, op: H.Op, j: nat)
    requires Backed(s, a, e) && SparesNodes(s, op) && j < |s.nodes|
    ensures NodeKept(s, HeapStep(s, op), j)
  {
    hide H.Inv, H.Step, H.StepMemory, Linked;
    var n, mem' := s.nodes[j], H.StepMemory(s.mem, s.heap, op);
    NodesStayLive(s, a, e, op, j);
    assert NodeOk(n, j, s.heap.live, a, e);
    if n.data != 0 {
      DataInside(s, a, e, j);
      forall q | n.data <= q < n.data + n.size
        ensures mem'[q] == s.mem[q]
      {
        if n.owns {
          H.LiveBytesKept(s.mem, s.heap, a, e, op, n.data, q);
        } else {
          H.OutsideBytesKept(s.mem, s.heap, a, e, op, q);
        }
      }
      hide SparesNodes, NodeOk, Backed, H.Allowed;
      SameData(s.mem, mem', n.data, n.size);
    }
  }

  lemma {:induction false} SameData(mem: seq<byte>, mem': seq<byte>, p: nat, n: nat)
    requires |mem'| == |mem| && p + n <= |mem| && forall q :: p <= q < p + n ==> mem'[q] == mem[q]
    ensures Slice(mem', p, n) == Slice(mem, p, n)
  {
    SameSlice(mem, mem', p, p + n);
  }

  /** An allocation, or a release of a block that is no node's, leaves every file as it is. */
  lemma {:induction false} HeapStepBacked(s: Fs, a: nat, e: nat, op: H.Op)
    requires Backed(s, a, e) && SparesNodes(s, op)
    ensures Backed(HeapStep(s, op), a, e) && OthersKept(s, HeapStep(s, op), -1)
  {
    hide H.Inv, H.Step, H.StepMemory, NodeOk, NodeKept, SparesNodes, InHeaders;
    assert H.Allowed(s.heap, op) by { SparesAllows(s, op); }
    H.StepInMemory(s.mem, s.heap, a, e, op);
    forall j | 0 <= j < |s.nodes|
      ensures NodeOk(s.nodes[j], j, H.Step(s.heap, op).live, a, e) && NodeKept(s, HeapStep(s, op), j)
    {
      NodesStayLive(s, a, e, op, j);
      HeapKeepsNode(s, a, e, op, j);
    }
  }

  lemma {:induction false} SparesAllows(s: Fs, op: H.Op)
    requires SparesNodes(s, op)
    ensures H.Allowed(s.heap, op)
  {
  }

  // ---------------------------------------------------------------- one node changes

  lemma {:induction false} NodeReplaced(s: Fs, a: nat, e: nat, id: nat, n: Node)
    requires Backed(s, a, e) && id < |s.nodes| && NodeOk(n, id, s.heap.live, a, e)
    requires n.data != 0 ==> Unclaimed(s.nodes, n.data, id)
    ensures Backed(s.(nodes := s.nodes[id := n]), a, e)
  {
    hide H.InMemory;
    forall j | 0 <= j < |s.nodes| && j != id
      ensures NodeOk(s.nodes[j], j, s.heap.live, a, e)
    {
    }
  }

  /** Copying a file's data into a live block that no node has. */
  lemma {:induction false} CopiedStep(s: Fs, a: nat, e: nat, id: nat, p: nat)
    requires Backed(s, a, e) && id < |s.nodes| && s.nodes[id].data != 0
    requires p in s.heap.live && Unclaimed(s.nodes, p, -1) && s.nodes[id].size <= s.heap.live[p] <= H.MAX_REQUEST
    ensures Backed(Copied(s, id, p), a, e) && OthersKept(s, Copied(s, id, p), -1)
    ensures p + s.heap.live[p] <= TWO32
    ensures |Slice(Copied(s, id, p).mem, p, s.heap.live[p])| == s.heap.live[p]
    ensures Slice(Copied(s, id, p).mem, p, s.heap.live[p])[..s.nodes[id].size] == Contents(s, id)
  {
    hide H.Inv, Poked, InHeaders, Linked;
    var n := s.nodes[id];
    var src := Slice(s.mem, n.data, n.size);
    DataInside(s, a, e, id);
    H.LiveApart(s.heap, a, e, p, p);
    LiveIsClear(s.heap, a, e, p, |src|);
    PokeKeepsHeap(s.mem, s.heap, a, e, p, src);
    forall j | 0 <= j < |s.nodes|
      ensures NodeKept(s, Copied(s, id, p), j)
    {
      BlockClear(s, a, e, p, j);
      PokeKeeps(s.nodes[j], s.mem, p, src);
    }
    hide H.InMemory, DataOk, Unshared, Unclaimed;
    MemorySize(s, a, e);
    CopiedToFront(s.mem, p, s.heap.live[p], src);
  }

  lemma {:induction false} CopiedToFront(mem: seq<byte>, p: nat, size: nat, src: seq<byte>)
    requires p + size <= |mem| && |src| <= size
    ensures |Slice(Poked(mem, p, src), p, size)| == size
    ensures Slice(Poked(mem, p, src), p, size)[..|src|] == src
  {
    var x := Slice(Poked(mem, p, src), p, size);
    assert forall k :: 0 <= k < |src| ==> x[k] == Poked(mem, p, src)[p + k] == src[k];
  }

  /** The new block of a growing file: live, of the right size, and no node's. */
  lemma {:induction false} GrownAlloc(s: Fs, a: nat, e: nat, size: nat)
    requires Backed(s, a, e) && 0 < size <= H.MAX_REQUEST && Malloc(s.heap.blocks, size).ptr != 0
    ensures var s1, p := HeapStep(s, H.Alloc(size)), Malloc(s.heap.blocks, size).ptr;
      && Backed(s1, a, e) && OthersKept(s, s1, -1) && s1.nodes == s.nodes && s1.children == s.children
      && p !in s.heap.live && s1.heap.live == s.heap.live[p := size] && Unclaimed(s1.nodes, p, -1)
      && p + size <= TWO32
  {
    hide H.Inv, Malloc, H.Step, H.StepMemory, NodeKept, InHeaders, Linked;
    var s1, p := HeapStep(s, H.Alloc(size)), Malloc(s.heap.blocks, size).ptr;
    HeapAllocates(s.heap, a, e, size);
    HeapStepBacked(s, a, e, H.Alloc(size));
    H.LiveApart(s1.heap, a, e, p, p);
    forall j | 0 <= j < |s.nodes|
      ensures s.nodes[j].data != p
    {
      assert NodeOk(s.nodes[j], j, s.heap.live, a, e);
    }
  }

  /** Putting a file's node onto a live block that no other node has. */
  lemma {:induction false} PlacedStep(s: Fs, a: nat, e: nat, id: nat, p: nat, size: nat)
    requires Backed(s, a, e) && id < |s.nodes| && s.nodes[id].owns && !s.nodes[id].isDir && 0 < size <= H.MAX_REQUEST
    requires p != 0 && p in s.heap.live && s.heap.live[p] == size && Unclaimed(s.nodes, p, -1)
    ensures Backed(Placed(s, id, p, size), a, e) && OthersKept(s, Placed(s, id, p, size), id)
    ensures Unclaimed(Placed(s, id, p, size).nodes, s.nodes[id].data, -1) || s.nodes[id].data == 0
  {
    hide H.InMemory;
    NodeReplaced(s, a, e, id, s.nodes[id].(data := p, size := size));
  }

  /** Moving a file to a larger block keeps its bytes and everybody else's. */
  lemma {:induction false} GrownStep(s: Fs, a: nat, e: nat, id: nat, size: nat)
    requires Backed(s, a, e) && id < |s.nodes| && s.nodes[id].owns && !s.nodes[id].isDir
    requires s.nodes[id].size < size <= H.MAX_REQUEST && Malloc(s.heap.blocks, size).ptr != 0
    ensures Backed(Grown(s, id, size), a, e) && OthersKept(s, Grown(s, id, size), id)
    ensures |Contents(Grown(s, id, size), id)| == size && |Contents(s, id)| < size
    ensures Contents(Grown(s, id, size), id)[..|Contents(s, id)|] == Contents(s, id)
  {
    hide Backed, Malloc, H.Step, H.StepMemory, Poked, Unclaimed, OthersKept, HeapStep, Slice;
    var n, p := s.nodes[id], Malloc(s.heap.blocks, size).ptr;
    var s1 := HeapStep(s, H.Alloc(size));
    GrownAlloc(s, a, e, size);
    OthersKeep(s, s1, -1, id);
    OthersFewer(s, s1, id);
    if n.data != 0 {
      DataInside(s, a, e, id);
      MovedStep(s1, a, e, id, p, size);
      OthersTwice(s, s1, Moved(s1, id, p, size), id);
    } else {
      PlacedStep(s1, a, e, id, p, size);
      OthersTwice(s, s1, Placed(s1, id, p, size), id);
      MemorySize(s1, a, e);
      SliceLength(s1.mem, p, size);
    }
  }

  lemma {:induction false} SliceLength(mem: seq<byte>, p: nat, n: nat)
    requires p + n <= |mem|
    ensures |Slice(mem, p, n)| == n
  {
  }

  lemma {:induction false} OthersFewer(s: Fs, s': Fs, id: int)
    requires OthersKept(s, s', -1)
    ensures OthersKept(s, s', id)
  {
  }

  lemma {:induction false} OthersKeep(s: Fs, s': Fs, id: int, j: nat)
    requires OthersKept(s, s', id) && j < |s.nodes| && j != id
    ensures j < |s'.nodes| && NodeKept(s, s', j)
  {
  }

  lemma {:induction false} MovedStep(s: Fs, a: nat, e: nat, id: nat, p: nat, size: nat)
    requires Backed(s, a, e) && id < |s.nodes| && s.nodes[id].owns && !s.nodes[id].isDir && s.nodes[id].data != 0
    requires p != 0 && p in s.heap.live && s.heap.live[p] == size && Unclaimed(s.nodes, p, -1)
    requires s.nodes[id].size < size <= H.MAX_REQUEST
    ensures Backed(Moved(s, id, p, size), a, e) && OthersKept(s, Moved(s, id, p, size), id)
    ensures |Contents(Moved(s, id, p, size), id)| == size && |Contents(s, id)| == s.nodes[id].size
    ensures Contents(Moved(s, id, p, size), id)[..s.nodes[id].size] == Contents(s, id)
  {
    hide Backed, H.Step, H.StepMemory, Poked, Unclaimed, OthersKept, HeapStep, Slice;
    var n := s.nodes[id];
    DataInside(s, a, e, id);
    CopiedStep(s, a, e, id, p);
    var s1 := Copied(s, id, p);
    PlacedStep(s1, a, e, id, p, size);
    var s2 := Placed(s1, id, p, size);
    OthersFewer(s, s1, id);
    OthersTwice(s, s1, s2, id);
    var s3 := HeapStep(s2, H.Release(n.data));
    NodeIsLive(s, a, e, id);
    HeapStepBacked(s2, a, e, H.Release(n.data));
    OthersKeep(s2, s3, -1, id);
    OthersFewer(s2, s3, id);
    OthersTwice(s, s2, s3, id);
  }

  lemma {:induction false} NodeIsLive(s: Fs, a: nat, e: nat, id: nat)
    requires Backed(s, a, e) && id < |s.nodes| && s.nodes[id].owns && s.nodes[id].data != 0
    ensures s.nodes[id].data in s.heap.live && s.heap.live[s.nodes[id].data] == s.nodes[id].size
  {
    assert NodeOk(s.nodes[id], id, s.heap.live, a, e);
  }

  // ---------------------------------------------------------------- writing

  /** `after` is `before` with `bytes` put at `offset`. What a gap before `offset` holds is not said. */
  predicate Overwritten(before: seq<byte>, after: seq<byte>, offset: nat, bytes: seq<byte>) {
    && |after| == (if offset + |bytes| > |before| then offset + |bytes| else |before|)
    && after[offset..offset + |bytes|] == bytes
    && forall i :: 0 <= i < |before| && !(offset <= i < offset + |bytes|) ==> after[i] == before[i]
  }

  lemma {:induction false} PatchedOverwrites(before: seq<byte>, mid: seq<byte>, offset: nat, bytes: seq<byte>)
    requires offset + |bytes| <= |mid| && |before| <= |mid| && mid[..|before|] == before
    requires |mid| == |before| || |mid| == offset + |bytes|
    ensures Overwritten(before, Patched(mid, offset, bytes), offset, bytes)
  {
    assert forall i :: 0 <= i < |before| ==> mid[i] == mid[..|before|][i];
  }

  /** A write goes through unless the node is a directory, there is no data to write to, the offset is
      behind constant data, or there is no block to grow into. */
  predicate WriteWorks(s: Fs, id: nat, offset: nat, size: nat)
    requires id < |s.nodes|
  {
    var n := s.nodes[id];
    && !n.isDir
    && if Grows(n, offset, size) then Malloc(s.heap.blocks, offset + size).ptr != 0
       else n.data != 0 && (offset + size <= n.size || offset < n.size)
  }

  /** Bytes accepted: all of them, except that constant data cannot grow. */
  function Accepted(n: Node, offset: nat, size: nat): nat {
    if n.owns || offset + size <= n.size then size
    else if offset < n.size then n.size - offset
    else 0
  }

  /** 32-bit offsets do not wrap, and a file that must grow asks `kmalloc` for no more than it can round up. */
  predicate WriteAllowed(s: Fs, id: nat, offset: nat, size: nat) {
    id < |s.nodes| && offset + size < TWO32 && (s.nodes[id].owns ==> offset + size <= H.MAX_REQUEST)
  }

  lemma {:induction false} WriteGrowing(s: Fs, a: nat, e: nat, id: nat, offset: nat, bytes: seq<byte>)
    requires Backed(s, a, e) && WriteAllowed(s, id, offset, |bytes|) && WriteWorks(s, id, offset, |bytes|)
    requires Grows(s.nodes[id], offset, |bytes|)
    ensures var s' := Stored(Grown(s, id, offset + |bytes|), id, offset, bytes);
      && Backed(s', a, e) && OthersKept(s, s', id)
      && Overwritten(Contents(s, id), Contents(s', id), offset, bytes)
  {
    hide Backed, Malloc, Stored, Overwritten, Poked;
    var size := offset + |bytes|;
    GrownStep(s, a, e, id, size);
    var s1 := Grown(s, id, size);
    assert s1.nodes[id].size == size && s1.nodes[id].data != 0;
    StoredStep(s1, a, e, id, offset, bytes);
    PatchedOverwrites(Contents(s, id), Contents(s1, id), offset, bytes);
    hide Grown;
    OthersTwice(s, s1, Stored(s1, id, offset, bytes), id);
  }

  lemma {:induction false} OthersTwice(s: Fs, s1: Fs, s2: Fs, id: int)
    requires OthersKept(s, s1, id) && OthersKept(s1, s2, id)
    ensures OthersKept(s, s2, id)
  {
    forall j | 0 <= j < |s.nodes| && j != id
      ensures NodeKept(s, s2, j)
    {
      assert NodeKept(s, s1, j) && NodeKept(s1, s2, j);
    }
  }

  /** What `ramfs_write` does to the data of the node and of all others. */
  lemma {:induction false} WriteData(s: Fs, a: nat, e: nat, id: nat, offset: nat, bytes: seq<byte>)
    requires Backed(s, a, e) && WriteAllowed(s, id, offset, |bytes|)
    ensures var r, s' := Write(s, id, offset, bytes).r, Write(s, id, offset, bytes).s;
      && Backed(s', a, e) && s'.children == s.children && OthersKept(s, s', id)
      && (!WriteWorks(s, id, offset, |bytes|) ==> r == 0 && s' == s)
      && (WriteWorks(s, id, offset, |bytes|) ==>
            r == Accepted(s.nodes[id], offset, |bytes|) <= |bytes| && s'.nodes[id].data != 0 &&
            Overwritten(Contents(s, id), Contents(s', id), offset, bytes[..r]))
  {
    hide Backed, Malloc, Overwritten, Poked;
    var n := s.nodes[id];
    if WriteWorks(s, id, offset, |bytes|) {
      if Grows(n, offset, |bytes|) {
        WriteGrowing(s, a, e, id, offset, bytes);
        assert bytes[..|bytes|] == bytes;
      } else {
        var r := Accepted(n, offset, |bytes|);
        assert r == |bytes| ==> bytes[..r] == bytes;
        StoredStep(s, a, e, id, offset, bytes[..r]);
        PatchedOverwrites(Contents(s, id), Contents(s, id), offset, bytes[..r]);
      }
    }
  }

  // ---------------------------------------------------------------- the map

  /** Names and kinds of the nodes are the same. */
  ghost predicate SameIdentity(nodes: seq<Node>, nodes': seq<Node>) {
    |nodes'| == |nodes| && forall j :: 0 <= j < |nodes| ==> nodes'[j].name == nodes[j].name && nodes'[j].isDir == nodes[j].isDir
  }

  lemma {:induction false} IdentityKeeps(nodes: seq<Node>, nodes': seq<Node>, children: seq<nat>)
    requires Shape(nodes, children) && SameIdentity(nodes, nodes')
    ensures Shape(nodes', children) && (NamesOk(nodes, children) ==> NamesOk(nodes', children))
  {
  }

  /** Changing one node's data changes at most its own entry. */
  lemma {:induction false} TreeOneChanged(s: Fs, s': Fs, id: nat)
    requires Shape(s.nodes, s.children) && NamesOk(s.nodes, s.children) && id < |s.nodes|
    requires s'.children == s.children && SameIdentity(s.nodes, s'.nodes) && OthersKept(s, s', id)
    ensures Shape(s'.nodes, s'.children) && NamesOk(s'.nodes, s'.children)
    ensures Tree(s') == if id in s.children then Tree(s)[s.nodes[id].name := EntryOf(s', id)] else Tree(s)
  {
    IdentityKeeps(s.nodes, s'.nodes, s.children);
    hide Tree, AgreesAt, NamesOk, Shape, OthersKept, EntryOf, Names, SameIdentity;
    var t := if id in s.children then Tree(s)[s.nodes[id].name := EntryOf(s', id)] else Tree(s);
    FindsNone(s, []);
    SameNames(s, s');
    forall i | 0 <= i < |s'.children|
      ensures AgreesAt(s', t, i)
    {
      if s.children[i] == id {
        EntryChanged(s, s', id, i);
      } else {
        EntryUnchanged(s, s', id, i);
      }
    }
    if id in s.children {
      NamedChild(s, id);
    }
    TreeIs(s', t);
  }

  lemma {:induction false} NamedChild(s: Fs, id: nat)
    requires Shape(s.nodes, s.children) && id in s.children
    ensures id < |s.nodes| && s.nodes[id].name in Names(s)
  {
    var i :| 0 <= i < |s.children| && s.children[i] == id;
    assert s.nodes[s.children[i]].name in Names(s);
  }

  lemma {:induction false} SameNames(s: Fs, s': Fs)
    requires Shape(s.nodes, s.children) && s'.children == s.children && SameIdentity(s.nodes, s'.nodes)
    requires Shape(s'.nodes, s'.children)
    ensures Names(s') == Names(s)
  {
    assert forall i :: 0 <= i < |s.children| ==> s'.nodes[s'.children[i]].name == s.nodes[s.children[i]].name;
  }

  lemma {:induction false} EntryChanged(s: Fs, s': Fs, id: nat, i: nat)
    requires Shape(s.nodes, s.children) && id < |s.nodes| && i < |s.children| && s.children[i] == id
    requires s'.children == s.children && SameIdentity(s.nodes, s'.nodes) && Shape(s'.nodes, s'.children)
    ensures AgreesAt(s', Tree(s)[s.nodes[id].name := EntryOf(s', id)], i)
  {
    hide Tree, EntryOf;
  }

  lemma {:induction false} EntryUnchanged(s: Fs, s': Fs, id: nat, i: nat)
    requires Shape(s.nodes, s.children) && NamesOk(s.nodes, s.children) && id < |s.nodes| && i < |s.children| && s.children[i] != id
    requires s'.children == s.children && OthersKept(s, s', id) && Shape(s'.nodes, s'.children)
    ensures AgreesAt(s', Tree(s), i)
    ensures id in s.children ==> AgreesAt(s', Tree(s)[s.nodes[id].name := EntryOf(s', id)], i)
  {
    hide Tree, EntryOf, AgreesAt, NamesOk;
    var c := s.children[i];
    assert NodeKept(s, s', c);
    EntryKept(s, s', i, i);
    if id in s.children {
      var k :| 0 <= k < |s.children| && s.children[k] == id;
      NamesDiffer(s, i, k);
      AgreesElsewhere(s', Tree(s), i, s.nodes[id].name, EntryOf(s', id));
    }
  }

  /** Changing the map under another name. */
  lemma {:induction false} AgreesElsewhere(s: Fs, t: map<Name, Entry>, i: nat, name: Name, v: Entry)
    requires Shape(s.nodes, s.children) && i < |s.children| && AgreesAt(s, t, i) && s.nodes[s.children[i]].name != name
    ensures AgreesAt(s, t[name := v], i) && AgreesAt(s, t - {name}, i)
  {
  }

  lemma {:induction false} NamesDiffer(s: Fs, i: nat, k: nat)
    requires Shape(s.nodes, s.children) && NamesOk(s.nodes, s.children) && i < |s.children| && k < |s.children| && i != k
    ensures s.nodes[s.children[i]].name != s.nodes[s.children[k]].name
  {
  }

  /** A child whose node and data are the same agrees with the old map. */
  lemma {:induction false} EntryKept(s: Fs, s': Fs, i: nat, k: nat)
    requires Shape(s.nodes, s.children) && NamesOk(s.nodes, s.children) && i < |s.children|
    requires Shape(s'.nodes, s'.children) && k < |s'.children| && s'.children[k] == s.children[i] && NodeKept(s, s', s.children[i])
    ensures AgreesAt(s', Tree(s), k)
  {
    hide Tree, NamesOk;
    FindsChild(s, i);
  }

  /** A write changes the file's own entry and nothing else. */
  lemma {:induction false} WriteEffect(s: Fs, a: nat, e: nat, id: nat, offset: nat, bytes: seq<byte>)
    requires Inv(s, a, e) && WriteAllowed(s, id, offset, |bytes|)
    ensures var s' := Write(s, id, offset, bytes).s;
      && Inv(s', a, e) && s'.children == s.children && SameIdentity(s.nodes, s'.nodes)
      && Tree(s') == if id in s.children then Tree(s)[s.nodes[id].name := EntryOf(s', id)] else Tree(s)
  {
    hide Backed, Malloc, Overwritten, Poked, Tree, EntryOf;
    var s' := Write(s, id, offset, bytes).s;
    WriteData(s, a, e, id, offset, bytes);
    TreeOneChanged(s, s', id);
  }

  // ---------------------------------------------------------------- names come and go

  /** The children with a new node behind them. */
  ghost predicate Appended(nodes: seq<Node>, children: seq<nat>, nodes': seq<Node>, children': seq<nat>, n: Node) {
    && |nodes'| == |nodes| + 1 && |children'| == |children| + 1
    && children'[|children|] == |nodes| && nodes'[|nodes|] == n
    && (forall i :: 0 <= i < |nodes| ==> nodes'[i] == nodes[i])
    && forall i :: 0 <= i < |children| ==> children'[i] == children[i]
  }

  lemma {:induction false} AddShape(nodes: seq<Node>, children: seq<nat>, nodes': seq<Node>, children': seq<nat>, n: Node)
    requires Shape(nodes, children) && Sized(nodes, children) && Appended(nodes, children, nodes', children', n)
    requires |nodes| < MAX_NODES && n.data == 0 && n.size == 0
    ensures Shape(nodes', children') && Sized(nodes', children')
  {
  }

  lemma {:induction false} AddNames(s: Fs, s': Fs, n: Node)
    requires Shape(s.nodes, s.children) && NamesOk(s.nodes, s.children) && Shape(s'.nodes, s'.children)
    requires Appended(s.nodes, s.children, s'.nodes, s'.children, n) && 0 < |n.name| < NAME_MAX
    ensures NamesOk(s'.nodes, s'.children) <==> n.name !in Names(s)
  {
    var last := |s.children|;
    assert s'.nodes[s'.children[last]] == n;
    if n.name in Names(s) {
      var i :| 0 <= i < last && s.nodes[s.children[i]].name == n.name;
      assert s'.nodes[s'.children[i]].name == s'.nodes[s'.children[last]].name;
    } else {
      forall i | 0 <= i < last
        ensures s'.nodes[s'.children[i]] == s.nodes[s.children[i]] && s'.nodes[s'.children[i]].name != n.name
      {
        assert s.nodes[s.children[i]].name in Names(s);
      }
      hide Names, Shape;
      forall i, j | 0 <= i < j <= last
        ensures s'.nodes[s'.children[i]].name != s'.nodes[s'.children[j]].name
      {
        assert j < last ==> s.nodes[s.children[i]].name != s.nodes[s.children[j]].name;
      }
    }
  }

  lemma {:induction false} AddBacked(s: Fs, a: nat, e: nat, n: Node, children: seq<nat>)
    requires Backed(s, a, e) && n.data == 0
    ensures Backed(s.(nodes := s.nodes + [n], children := children), a, e)
  {
    hide H.Inv;
    var nodes := s.nodes + [n];
    forall j | 0 <= j < |nodes|
      ensures NodeOk(nodes[j], j, s.heap.live, a, e)
    {
      if j < |s.nodes| {
        assert NodeOk(s.nodes[j], j, s.heap.live, a, e);
      }
    }
  }

  /** The entry of a file or directory just made. */
  function NewEntry(isDir: bool): Entry {
    if isDir then Directory else File([])
  }

  /** A name can be used: it fits, or what is left of it after cutting is not taken. */
  predicate Distinct(s: Fs, name: Name) {
    |name| < NAME_MAX || Find(s.nodes, s.children, Clipped(name)) == |s.children|
  }

  /** `ramfs_create` and `ramfs_mkdir` succeed exactly on a new, non-empty name while the pool lasts.
      The root's child array never overflows, and names stay distinct exactly as long as a name cut
      to 127 bytes is not already taken. */
  lemma {:induction false} AddEffect(s: Fs, a: nat, e: nat, name: Name, isDir: bool)
    requires Inv(s, a, e)
    ensures var r, s' := Add(s, name, isDir).r, Add(s, name, isDir).s;
      && (r == 0 <==> name != [] && name !in Names(s) && |s.nodes| < MAX_NODES)
      && (r != 0 ==> r == -1 && s' == s)
      && (r == 0 ==> (Inv(s', a, e) <==> Distinct(s, name)))
      && (Inv(s', a, e) && r == 0 ==> Tree(s') == Tree(s)[Clipped(name) := NewEntry(isDir)])
      && |s'.children| < MAX_CHILDREN
  {
    hide Backed, Tree, Find;
    FindsNone(s, name);
    FindsNone(s, Clipped(name));
    var s' := Add(s, name, isDir).s;
    if name != [] && name !in Names(s) && |s.nodes| < MAX_NODES {
      var n := Node(Clipped(name), isDir, 0, 0, !isDir);
      AddShape(s.nodes, s.children, s'.nodes, s'.children, n);
      AddNames(s, s', n);
      AddBacked(s, a, e, n, s'.children);
      if Distinct(s, name) {
        AddTree(s, s', n);
      }
    }
  }

  lemma {:induction false} AddTree(s: Fs, s': Fs, n: Node)
    requires Shape(s.nodes, s.children) && NamesOk(s.nodes, s.children) && n.data == 0 && n.name !in Names(s)
    requires Appended(s.nodes, s.children, s'.nodes, s'.children, n) && s'.mem == s.mem
    requires Shape(s'.nodes, s'.children) && NamesOk(s'.nodes, s'.children)
    ensures Tree(s') == Tree(s)[n.name := NewEntry(n.isDir)]
  {
    var t := Tree(s)[n.name := NewEntry(n.isDir)];
    FindsNone(s, []);
    hide Tree, AgreesAt, Names, Shape, NamesOk, Appended;
    forall i | 0 <= i < |s'.children|
      ensures AgreesAt(s', t, i)
    {
      AddAgrees(s, s', n, i);
    }
    forall name | name in t
      ensures name in Names(s')
    {
      NamesGrow(s, s', n, name);
    }
    TreeIs(s', t);
  }

  lemma {:induction false} AddAgrees(s: Fs, s': Fs, n: Node, i: nat)
    requires Shape(s.nodes, s.children) && NamesOk(s.nodes, s.children) && n.data == 0 && n.name !in Names(s)
    requires Appended(s.nodes, s.children, s'.nodes, s'.children, n) && s'.mem == s.mem
    requires Shape(s'.nodes, s'.children) && i < |s'.children|
    ensures AgreesAt(s', Tree(s)[n.name := NewEntry(n.isDir)], i)
  {
    hide Tree;
    if i < |s.children| {
      FindsChild(s, i);
      assert s.nodes[s.children[i]].name in Names(s);
      assert s'.nodes[s'.children[i]] == s.nodes[s.children[i]];
    }
  }

  lemma {:induction false} NamesGrow(s: Fs, s': Fs, n: Node, name: Name)
    requires Shape(s.nodes, s.children) && Shape(s'.nodes, s'.children)
    requires Appended(s.nodes, s.children, s'.nodes, s'.children, n)
    requires name in Names(s) || name == n.name
    ensures name in Names(s')
  {
    if name in Names(s) {
      var i :| 0 <= i < |s.children| && s.nodes[s.children[i]].name == name;
      assert s'.nodes[s'.children[i]].name == name;
    } else {
      assert s'.children[|s.children|] == |s.nodes|;
    }
  }

  /** Giving a file's block back leaves every other file alone. */
  lemma {:induction false} DroppedStep(s: Fs, a: nat, e: nat, id: nat)
    requires Backed(s, a, e) && id < |s.nodes|
    ensures Backed(Dropped(s, id), a, e) && OthersKept(s, Dropped(s, id), id)
    ensures SameIdentity(s.nodes, Dropped(s, id).nodes) && Dropped(s, id).children == s.children
  {
    hide H.InMemory, H.Step, H.StepMemory, HeapStep, NodeKept;
    var n := s.nodes[id];
    if n.owns && n.data != 0 {
      var s1 := s.(nodes := s.nodes[id := n.(data := 0)]);
      NodeIsLive(s, a, e, id);
      NodeReplaced(s, a, e, id, n.(data := 0));
      HeapStepBacked(s1, a, e, H.Release(n.data));
      OthersFewer(s1, HeapStep(s1, H.Release(n.data)), id);
      RecordChanged(s, s1, id);
      OthersTwice(s, s1, HeapStep(s1, H.Release(n.data)), id);
      HeapStepFields(s1, H.Release(n.data));
    } else {
      RecordChanged(s, s, id);
    }
  }

  lemma {:induction false} RecordChanged(s: Fs, s': Fs, id: nat)
    requires id < |s.nodes| == |s'.nodes| && s'.nodes == s.nodes[id := s'.nodes[id]] && s'.mem == s.mem
    ensures OthersKept(s, s', id)
  {
  }

  lemma {:induction false} HeapStepFields(s: Fs, op: H.Op)
    ensures HeapStep(s, op).nodes == s.nodes && HeapStep(s, op).children == s.children
  {
  }

  /** `ramfs_unlink` succeeds exactly on a name that exists, and removes it. */
  lemma {:induction false} UnlinkEffect(s: Fs, a: nat, e: nat, name: Name)
    requires Inv(s, a, e)
    ensures var r, s' := Unlink(s, name).r, Unlink(s, name).s;
      && (r == 0 <==> name in Names(s))
      && (r != 0 ==> r == -1 && s' == s)
      && Inv(s', a, e) && Tree(s') == Tree(s) - {name}
  {
    hide H.Inv, Tree, Find, Dropped, Without, DataOk, Unshared;
    var i, s' := Find(s.nodes, s.children, name), Unlink(s, name).s;
    FindsNone(s, name);
    if name in Names(s) {
      var id := s.children[i];
      assert |s.nodes[id].name| > 0;
      DroppedStep(s, a, e, id);
      OthersTwice(s, Dropped(s, id), s', id);
      UnlinkShape(s, s', i);
      UnlinkTree(s, s', i);
    }
  }

  /** Position in the children before the removal. */
  function Before(i: nat, k: nat): nat {
    if k < i then k else k + 1
  }

  lemma {:induction false} WithoutAt<T>(q: seq<T>, i: nat)
    requires i < |q|
    ensures |Without(q, i)| == |q| - 1
    ensures forall k :: 0 <= k < |q| - 1 ==> Without(q, i)[k] == q[Before(i, k)]
  {
  }

  lemma {:induction false} UnlinkShape(s: Fs, s': Fs, i: nat)
    requires Shape(s.nodes, s.children) && NamesOk(s.nodes, s.children) && Sized(s.nodes, s.children) && i < |s.children|
    requires s'.children == Without(s.children, i) && SameIdentity(s.nodes, s'.nodes) && OthersKept(s, s', s.children[i])
    ensures Shape(s'.nodes, s'.children) && NamesOk(s'.nodes, s'.children) && Sized(s'.nodes, s'.children)
  {
    WithoutAt(s.children, i);
    hide Without, DataOf, NamesOk, Sized;
    forall k | 0 <= k < |s'.children|
      ensures PickedAt(s, s', i, k)
    {
      assert NodeKept(s, s', s.children[Before(i, k)]);
    }
    hide PickedAt, NodeKept, OthersKept;
    PickedShape(s, s', i);
    PickedNames(s, s', i);
    PickedSizes(s, s', i);
  }

  /** Child `k` was child `Before(i, k)`, and its node is the same. */
  ghost predicate PickedAt(s: Fs, s': Fs, i: nat, k: nat)
    requires Shape(s.nodes, s.children) && i < |s.children| && |s'.children| == |s.children| - 1 && k < |s'.children|
  {
    && s'.children[k] == s.children[Before(i, k)] < |s'.nodes| && s'.children[k] != s.children[i]
    && s'.nodes[s'.children[k]] == s.nodes[s.children[Before(i, k)]]
  }

  lemma {:induction false} PickedShape(s: Fs, s': Fs, i: nat)
    requires Shape(s.nodes, s.children) && i < |s.children| && |s'.children| == |s.children| - 1
    requires SameIdentity(s.nodes, s'.nodes) && forall k :: 0 <= k < |s'.children| ==> PickedAt(s, s', i, k)
    ensures Shape(s'.nodes, s'.children)
  {
    forall k | 0 <= k < |s'.children|
      ensures 0 < s'.children[k] < |s'.nodes|
    {
      assert PickedAt(s, s', i, k);
    }
    forall k, m | 0 <= k < m < |s'.children|
      ensures s'.children[k] != s'.children[m]
    {
      assert PickedAt(s, s', i, k) && PickedAt(s, s', i, m);
      assert Before(i, k) < Before(i, m);
    }
  }

  lemma {:induction false} PickedNames(s: Fs, s': Fs, i: nat)
    requires Shape(s.nodes, s.children) && NamesOk(s.nodes, s.children) && i < |s.children| && |s'.children| == |s.children| - 1
    requires Shape(s'.nodes, s'.children) && forall k :: 0 <= k < |s'.children| ==> PickedAt(s, s', i, k)
    ensures NamesOk(s'.nodes, s'.children)
  {
    forall k | 0 <= k < |s'.children|
      ensures 0 < |s'.nodes[s'.children[k]].name| < NAME_MAX
    {
      assert PickedAt(s, s', i, k);
    }
    forall k, m | 0 <= k < m < |s'.children|
      ensures s'.nodes[s'.children[k]].name != s'.nodes[s'.children[m]].name
    {
      assert PickedAt(s, s', i, k) && PickedAt(s, s', i, m);
      var x, y := Before(i, k), Before(i, m);
      assert s.nodes[s.children[x]].name != s.nodes[s.children[y]].name;
    }
  }

  lemma {:induction false} PickedSizes(s: Fs, s': Fs, i: nat)
    requires Shape(s.nodes, s.children) && Sized(s.nodes, s.children) && i < |s.children| && |s'.children| == |s.children| - 1
    requires Shape(s'.nodes, s'.children) && forall k :: 0 <= k < |s'.children| ==> PickedAt(s, s', i, k)
    ensures Sized(s'.nodes, s'.children)
  {
    forall k | 0 <= k < |s'.children| && s'.nodes[s'.children[k]].data == 0
      ensures s'.nodes[s'.children[k]].size == 0
    {
      assert PickedAt(s, s', i, k);
    }
  }

  lemma {:induction false} UnlinkTree(s: Fs, s': Fs, i: nat)
    requires Shape(s.nodes, s.children) && NamesOk(s.nodes, s.children) && i < |s.children|
    requires s'.children == Without(s.children, i) && SameIdentity(s.nodes, s'.nodes) && OthersKept(s, s', s.children[i])
    requires Shape(s'.nodes, s'.children) && NamesOk(s'.nodes, s'.children)
    ensures Tree(s') == Tree(s) - {s.nodes[s.children[i]].name}
  {
    var gone := s.nodes[s.children[i]].name;
    hide Tree, AgreesAt, Names, NamesOk, Shape, Without, OthersKept, SameIdentity;
    var t := Tree(s) - {gone};
    FindsNone(s, []);
    forall k | 0 <= k < |s'.children|
      ensures AgreesAt(s', t, k)
    {
      UnlinkAgrees(s, s', i, k);
    }
    forall name | name in t
      ensures name in Names(s')
    {
      NamesShrink(s, s', i, name);
    }
    TreeIs(s', t);
  }

  lemma {:induction false} UnlinkAgrees(s: Fs, s': Fs, i: nat, k: nat)
    requires Shape(s.nodes, s.children) && NamesOk(s.nodes, s.children) && i < |s.children| && k < |s'.children|
    requires s'.children == Without(s.children, i) && OthersKept(s, s', s.children[i]) && Shape(s'.nodes, s'.children)
    ensures AgreesAt(s', Tree(s) - {s.nodes[s.children[i]].name}, k)
  {
    hide Tree, EntryOf, AgreesAt, NamesOk, Without;
    WithoutAt(s.children, i);
    var b := Before(i, k);
    assert s'.children[k] == s.children[b];
    assert NodeKept(s, s', s.children[b]);
    EntryKept(s, s', b, k);
    NamesDiffer(s, b, i);
    AgreesElsewhere(s', Tree(s), k, s.nodes[s.children[i]].name, Directory);
  }

  lemma {:induction false} NamesShrink(s: Fs, s': Fs, i: nat, name: Name)
    requires Shape(s.nodes, s.children) && i < |s.children| && Shape(s'.nodes, s'.children)
    requires s'.children == Without(s.children, i) && SameIdentity(s.nodes, s'.nodes)
    requires name in Names(s) && name != s.nodes[s.children[i]].name
    ensures name in Names(s')
  {
    WithoutAt(s.children, i);
    hide Without;
    var b :| 0 <= b < |s.children| && s.nodes[s.children[b]].name == name;
    var k := if b < i then b else b - 1;
    assert Before(i, k) == b;
    assert s'.nodes[s'.children[k]].name == name;
  }

  // ---------------------------------------------------------------- runs

  /** Calls of the file system, and what the rest of the kernel does with the heap and with memory. */
  datatype Op =
    | Make(name: Name, isDir: bool)
    | Remove(name: Name)
    | WriteTo(id: nat, offset: nat, bytes: seq<byte>)
    | OtherHeap(op: H.Op)
    | OtherStore(at: nat, bytes: seq<byte>)

  /** Others free only their own blocks and write neither to file data nor to a header of the heap. */
  ghost predicate Allowed(s: Fs, op: Op) {
    match op
    case Make(name, _) => Distinct(s, name)
    case Remove(_) => true
    case WriteTo(id, offset, bytes) => WriteAllowed(s, id, offset, |bytes|)
    case OtherHeap(op) => SparesNodes(s, op)
    case OtherStore(at, bytes) =>
      ClearOfHeaders(s.heap, at, |bytes|) && forall j :: 0 <= j < |s.nodes| ==> Clear(s.nodes[j], at, |bytes|)
  }

  function Step(s: Fs, op: Op): Fs {
    match op
    case Make(name, isDir) => Add(s, name, isDir).s
    case Remove(name) => Unlink(s, name).s
    case WriteTo(id, offset, bytes) => if id < |s.nodes| then Write(s, id, offset, bytes).s else s
    case OtherHeap(op) => HeapStep(s, op)
    case OtherStore(at, bytes) => s.(mem := Poked(s.mem, at, bytes))
  }

  ghost predicate AllowedRun(s: Fs, ops: seq<Op>)
    decreases |ops|
  {
    ops == [] || (Allowed(s, ops[0]) && AllowedRun(Step(s, ops[0]), ops[1..]))
  }

  function Run(s: Fs, ops: seq<Op>): Fs
    decreases |ops|
  {
    if ops == [] then s else Run(Step(s, ops[0]), ops[1..])
  }

  lemma {:induction false} OtherStoreKeeps(s: Fs, a: nat, e: nat, at: nat, bytes: seq<byte>)
    requires Backed(s, a, e) && Allowed(s, OtherStore(at, bytes))
    ensures Backed(Step(s, OtherStore(at, bytes)), a, e)
    ensures OthersKept(s, Step(s, OtherStore(at, bytes)), -1)
  {
    hide Poked, H.InMemory;
    var s' := Step(s, OtherStore(at, bytes));
    PokeKeepsHeap(s.mem, s.heap, a, e, at, bytes);
    forall j | 0 <= j < |s.nodes|
      ensures NodeKept(s, s', j)
    {
      PokeKeeps(s.nodes[j], s.mem, at, bytes);
    }
  }

  lemma {:induction false} StepKeepsInv(s: Fs, a: nat, e: nat, op: Op)
    requires Inv(s, a, e) && Allowed(s, op)
    ensures Inv(Step(s, op), a, e)
  {
    hide Backed, Add, Unlink, Write, Distinct, Poked, H.Step, H.StepMemory;
    match op {
      case Make(name, isDir) => AddEffect(s, a, e, name, isDir);
      case Remove(name) => UnlinkEffect(s, a, e, name);
      case WriteTo(id, offset, bytes) => WriteEffect(s, a, e, id, offset, bytes);
      case OtherHeap(op) => HeapStepBacked(s, a, e, op);
      case OtherStore(at, bytes) => OtherStoreKeeps(s, a, e, at, bytes);
    }
  }

  lemma {:induction false} RunKeepsInv(s: Fs, a: nat, e: nat, ops: seq<Op>)
    requires Inv(s, a, e) && AllowedRun(s, ops)
    ensures Inv(Run(s, ops), a, e)
    decreases |ops|
  {
    hide Inv, Step, Allowed;
    if ops != [] {
      StepKeepsInv(s, a, e, ops[0]);
      RunKeepsInv(Step(s, ops[0]), a, e, ops[1..]);
    }
  }

  /** Any name of 128 bytes or more can be made twice; then two children have the same name. */
  lemma {:induction false} LongNameTwice(s: Fs, a: nat, e: nat, name: Name, isDir: bool)
    requires Inv(s, a, e) && |name| >= NAME_MAX && Distinct(s, name) && |s.nodes| <= MAX_NODES - 2
    ensures var s1 := Add(s, name, isDir).s;
      Add(s1, name, isDir).r == 0 && !Inv(Add(s1, name, isDir).s, a, e)
  {
    hide Inv, Find;
    var s1 := Add(s, name, isDir).s;
    NamesShort(s, a, e, name);
    AddEffect(s, a, e, name, isDir);
    NamesShort(s1, a, e, name);
    AddEffect(s1, a, e, name, isDir);
    FindsNone(s1, Clipped(name));
    assert Clipped(name) in Tree(s1);
  }

  lemma {:induction false} NamesShort(s: Fs, a: nat, e: nat, name: Name)
    requires Inv(s, a, e) && |name| >= NAME_MAX
    ensures Shape(s.nodes, s.children) && name !in Names(s)
  {
  }

  /** The block a growing file gets is large enough exactly when its new size does not wrap in `align8`. */
  lemma {:induction false} GrowthFits(s: Fs, a: nat, e: nat, size: nat)
    requires Backed(s, a, e) && size < TWO32 && Malloc(s.heap.blocks, size).ptr != 0
    ensures var h, p := H.Step(s.heap, H.Alloc(size)), Malloc(s.heap.blocks, size).ptr;
      IndexOf(h.blocks, p) < |h.blocks| && (size <= H.SizeOf(h, p) <==> size <= H.MAX_REQUEST)
  {
    hide Malloc, H.Inv, H.Step, Linked;
    HeapAllocates(s.heap, a, e, size);
    H.InvIsSafe(H.Step(s.heap, H.Alloc(size)), a, e);
  }

  // ---------------------------------------------------------------- a file over time

  /** The operation neither removes this name nor writes to this file. */
  predicate Quiet(op: Op, name: Name, id: nat) {
    op != Remove(name) && !(op.WriteTo? && op.id == id)
  }

  lemma {:induction false} StepKeepsFile(s: Fs, a: nat, e: nat, op: Op, id: nat)
    requires Inv(s, a, e) && Allowed(s, op) && id in s.children && Quiet(op, s.nodes[id].name, id)
    ensures id in Step(s, op).children && id < |Step(s, op).nodes| && NodeKept(s, Step(s, op), id)
  {
    hide Backed, Malloc, H.Step, Poked, Distinct;
    match op {
      case Make(name, isDir) =>
      case Remove(name) => UnlinkKeepsFile(s, a, e, name, id);
      case WriteTo(other, offset, bytes) => WriteData(s, a, e, other, offset, bytes);
      case OtherHeap(op) => HeapStepBacked(s, a, e, op);
      case OtherStore(at, bytes) => OtherStoreKeeps(s, a, e, at, bytes);
    }
  }

  lemma {:induction false} UnlinkKeepsFile(s: Fs, a: nat, e: nat, name: Name, id: nat)
    requires Inv(s, a, e) && id in s.children && s.nodes[id].name != name
    ensures var s' := Unlink(s, name).s; id in s'.children && id < |s'.nodes| && NodeKept(s, s', id)
  {
    hide Backed, Dropped;
    var i := Find(s.nodes, s.children, name);
    if name != [] && i < |s.children| {
      var c := s.children[i];
      assert c != id;
      DroppedStep(s, a, e, c);
      assert NodeKept(s, Dropped(s, c), id);
      assert id in Without(s.children, i);
    }
  }

  lemma {:induction false} RunKeepsFile(s: Fs, a: nat, e: nat, ops: seq<Op>, id: nat)
    requires Inv(s, a, e) && AllowedRun(s, ops) && id in s.children
    requires forall k :: 0 <= k < |ops| ==> Quiet(ops[k], s.nodes[id].name, id)
    ensures id in Run(s, ops).children && id < |Run(s, ops).nodes| && NodeKept(s, Run(s, ops), id)
    decreases |ops|
  {
    hide Step, Allowed, Quiet, Backed;
    if ops != [] {
      StepKeepsInv(s, a, e, ops[0]);
      StepKeepsFile(s, a, e, ops[0], id);
      RunKeepsFile(Step(s, ops[0]), a, e, ops[1..], id);
    }
  }

  /** `ramfs_read` gives the requested part of the file, cut at its end. */
  lemma {:induction false} ReadGives(s: Fs, a: nat, e: nat, id: nat, offset: nat, size: nat)
    requires Inv(s, a, e) && id < |s.nodes|
    ensures var c := Contents(s, id);
      Read(s, id, offset, size) == if offset >= |c| then [] else if offset + size > |c| then c[offset..] else c[offset..offset + size]
  {
    var n := s.nodes[id];
    assert NodeOk(n, id, s.heap.live, a, e);
    if n.data != 0 {
      DataInside(s, a, e, id);
      hide Inv;
      if offset < n.size {
        SliceOfSlice(s.mem, n.data, n.size, offset, size);
      }
    }
  }

  lemma {:induction false} SliceOfSlice(mem: seq<byte>, p: nat, n: nat, offset: nat, size: nat)
    requires p + n <= |mem| && offset < n
    ensures offset + size > n ==> Slice(mem, p + offset, n - offset) == Slice(mem, p, n)[offset..]
    ensures offset + size <= n ==> Slice(mem, p + offset, size) == Slice(mem, p, n)[offset..offset + size]
  {
    var x := Slice(mem, p, n);
    SubSlice(mem, p, n, offset, n - offset);
    assert x[offset..] == x[offset..n];
    if offset + size <= n {
      SubSlice(mem, p, n, offset, size);
    }
  }

  /** Reads return the latest written bytes, however much else happens in between: other files made,
      written, grown and removed, and the rest of the kernel at work. The path still leads there. */
  lemma {:induction false} WriteReadBack(s: Fs, a: nat, e: nat, id: nat, offset: nat, bytes: seq<byte>, ops: seq<Op>)
    requires Inv(s, a, e) && id in s.children && WriteAllowed(s, id, offset, |bytes|)
    requires AllowedRun(Write(s, id, offset, bytes).s, ops)
    requires forall k :: 0 <= k < |ops| ==> Quiet(ops[k], s.nodes[id].name, id)
    ensures var r, s' := Write(s, id, offset, bytes).r, Run(Write(s, id, offset, bytes).s, ops);
      && id < |s'.nodes| && 0 <= r <= |bytes| && Read(s', id, offset, r) == bytes[..r]
      && forall k, m :: SLASH !in s.nodes[id].name ==> Resolve(s', Slashes(k) + s.nodes[id].name + Slashes(m)) == id
  {
    hide Malloc, Run, AllowedRun, Quiet, Read, Resolve, Slashes, Inv, Write, Contents;
    var r, s1 := Write(s, id, offset, bytes).r, Write(s, id, offset, bytes).s;
    WrittenFile(s, a, e, id, offset, bytes);
    RunKeepsFile(s1, a, e, ops, id);
    var s' := Run(s1, ops);
    RunKeepsInv(s1, a, e, ops);
    ReadAgain(s1, s', a, e, id, offset, r);
    forall k, m | SLASH !in s.nodes[id].name
      ensures Resolve(s', Slashes(k) + s.nodes[id].name + Slashes(m)) == id
    {
      ResolvesTo(s', a, e, k, id, m);
    }
  }

  lemma {:induction false} WrittenFile(s: Fs, a: nat, e: nat, id: nat, offset: nat, bytes: seq<byte>)
    requires Inv(s, a, e) && id in s.children && WriteAllowed(s, id, offset, |bytes|)
    ensures var r, s' := Write(s, id, offset, bytes).r, Write(s, id, offset, bytes).s;
      && Inv(s', a, e) && s'.children == s.children && id < |s'.nodes| && s'.nodes[id].name == s.nodes[id].name
      && 0 <= r <= |bytes| && (r > 0 ==> offset + r <= |Contents(s', id)| && Contents(s', id)[offset..offset + r] == bytes[..r])
  {
    hide Malloc, Write, Backed, Tree, EntryOf, Contents, Accepted;
    WriteEffect(s, a, e, id, offset, bytes);
    WriteData(s, a, e, id, offset, bytes);
    hide Inv;
  }

  lemma {:induction false} ReadAgain(s: Fs, s': Fs, a: nat, e: nat, id: nat, offset: nat, r: nat)
    requires Inv(s', a, e) && id < |s.nodes| && id < |s'.nodes| && NodeKept(s, s', id)
    ensures r > 0 && offset + r <= |Contents(s, id)| ==> Read(s', id, offset, r) == Contents(s, id)[offset..offset + r]
    ensures r == 0 ==> Read(s', id, offset, r) == []
  {
    hide Inv, Read;
    ReadGives(s', a, e, id, offset, r);
  }

  lemma {:induction false} ResolvesTo(s: Fs, a: nat, e: nat, k: nat, id: nat, m: nat)
    requires Inv(s, a, e) && id in s.children && id < |s.nodes| && SLASH !in s.nodes[id].name
    ensures Resolve(s, Slashes(k) + s.nodes[id].name + Slashes(m)) == id
  {
    hide Backed, Sized, Resolve, Slashes;
    var i :| 0 <= i < |s.children| && s.children[i] == id;
    assert 0 < |s.nodes[s.children[i]].name| < NAME_MAX;
    ResolveName(s, k, s.nodes[id].name, m);
  }

  // ---------------------------------------------------------------- which blocks are whose

  /** Heap blocks of nodes, linked or not. */
  ghost function DataBlocks(nodes: seq<Node>): set<nat> {
    set i | 0 <= i < |nodes| && nodes[i].owns && nodes[i].data != 0 :: nodes[i].data
  }

  /** The live blocks of the rest of the kernel. */
  ghost function Others(s: Fs): set<nat> {
    s.heap.live.Keys - DataBlocks(s.nodes)
  }

  /** The node has a heap block. */
  predicate HasBlock(n: Node) {
    n.owns && n.data != 0
  }

  /** Heap blocks of the files that have a name. */
  ghost function Owned(s: Fs): set<nat> {
    set i | 0 <= i < |s.nodes| && i in s.children && HasBlock(s.nodes[i]) :: s.nodes[i].data
  }

  /** Live blocks that no name leads to: those of others, and lost ones. */
  ghost function Foreign(s: Fs): set<nat> {
    s.heap.live.Keys - Owned(s)
  }

  /** An unlinked node has a block: no call can free it, since nodes are never used again. */
  ghost predicate HasLeak(s: Fs) {
    exists i :: 0 <= i < |s.nodes| && i !in s.children && HasBlock(s.nodes[i])
  }

  /** The call grows a file that has been unlinked, through a node pointer that was kept. */
  predicate Leaks(s: Fs, op: Op) {
    && op.WriteTo? && op.id < |s.nodes| && op.id !in s.children
    && Grows(s.nodes[op.id], op.offset, |op.bytes|) && WriteWorks(s, op.id, op.offset, |op.bytes|)
  }

  lemma {:induction false} BlocksReplaced(nodes: seq<Node>, nodes': seq<Node>, id: nat)
    requires Unshared(nodes) && id < |nodes| == |nodes'| && nodes' == nodes[id := nodes'[id]]
    requires nodes[id].owns && nodes'[id].owns
    ensures DataBlocks(nodes') == DataBlocks(nodes) - {nodes[id].data} + (if nodes'[id].data != 0 then {nodes'[id].data} else {})
  {
    var rest := DataBlocks(nodes) - {nodes[id].data} + (if nodes'[id].data != 0 then {nodes'[id].data} else {});
    forall p
      ensures p in DataBlocks(nodes') <==> p in rest
    {
      if p in DataBlocks(nodes') {
        var i :| 0 <= i < |nodes'| && nodes'[i].owns && nodes'[i].data != 0 && nodes'[i].data == p;
        assert i != id ==> nodes[i] == nodes'[i];
      }
      if p in DataBlocks(nodes) && p != nodes[id].data {
        var i :| 0 <= i < |nodes| && nodes[i].owns && nodes[i].data != 0 && nodes[i].data == p;
        assert nodes'[i] == nodes[i];
      }
    }
  }

  lemma {:induction false} DroppedOthers(s: Fs, a: nat, e: nat, id: nat)
    requires Backed(s, a, e) && id < |s.nodes|
    ensures Others(Dropped(s, id)) == Others(s)
  {
    hide H.Inv, Free, H.StepMemory, Linked;
    var n := s.nodes[id];
    if HasBlock(n) {
      NodeIsLive(s, a, e, id);
      HeapReleases(s.heap, a, e, n.data);
      BlocksReplaced(s.nodes, Dropped(s, id).nodes, id);
      assert n.data in DataBlocks(s.nodes);
    }
  }

  /** The live pointers once a file has moved to the block at `p`. */
  function MovedLive(live: map<nat, nat>, n: Node, p: nat, size: nat): map<nat, nat> {
    var live1 := live[p := size];
    if n.data != 0 && n.size > 0 then live1 - {n.data} else live1
  }

  /** The heap after growing: the new block is live, the old one no longer. */
  lemma {:induction false} GrownHeap(s: Fs, a: nat, e: nat, id: nat, size: nat)
    requires Backed(s, a, e) && id < |s.nodes| && s.nodes[id].owns && 0 < size < TWO32
    requires Malloc(s.heap.blocks, size).ptr != 0
    ensures var p := Malloc(s.heap.blocks, size).ptr;
      && p !in s.heap.live && (s.nodes[id].data != 0 ==> s.nodes[id].size > 0 && s.nodes[id].data in s.heap.live)
      && Grown(s, id, size).heap.live == MovedLive(s.heap.live, s.nodes[id], p, size)
      && Grown(s, id, size).nodes == s.nodes[id := s.nodes[id].(data := p, size := size)]
  {
    hide H.Inv, Malloc, H.Step, Poked, H.StepMemory, Linked;
    var n := s.nodes[id];
    assert NodeOk(n, id, s.heap.live, a, e);
    HeapAllocates(s.heap, a, e, size);
    if n.data != 0 {
      HeapReleases(H.Step(s.heap, H.Alloc(size)), a, e, n.data);
    }
  }

  lemma {:induction false} BlocksAreLive(s: Fs, a: nat, e: nat)
    requires Backed(s, a, e)
    ensures DataBlocks(s.nodes) <= s.heap.live.Keys
  {
    hide H.InMemory;
    forall q | q in DataBlocks(s.nodes)
      ensures q in s.heap.live
    {
      var i :| 0 <= i < |s.nodes| && s.nodes[i].owns && s.nodes[i].data != 0 && s.nodes[i].data == q;
      NodeIsLive(s, a, e, i);
    }
  }

  lemma {:induction false} GrownOthers(s: Fs, a: nat, e: nat, id: nat, size: nat)
    requires Backed(s, a, e) && id < |s.nodes| && s.nodes[id].owns && 0 < size < TWO32
    requires Malloc(s.heap.blocks, size).ptr != 0
    ensures Others(Grown(s, id, size)) == Others(s)
  {
    hide H.InMemory, Malloc, Grown;
    var n, s', p := s.nodes[id], Grown(s, id, size), Malloc(s.heap.blocks, size).ptr;
    GrownHeap(s, a, e, id, size);
    BlocksReplaced(s.nodes, s'.nodes, id);
    assert n.data != 0 ==> n.data in DataBlocks(s.nodes);
    BlocksAreLive(s, a, e);
  }

  lemma {:induction false} BlocksAppend(nodes: seq<Node>, n: Node)
    requires n.data == 0
    ensures DataBlocks(nodes + [n]) == DataBlocks(nodes)
  {
    var nodes' := nodes + [n];
    assert forall i :: 0 <= i < |nodes| ==> nodes'[i] == nodes[i];
    forall p | p in DataBlocks(nodes)
      ensures p in DataBlocks(nodes')
    {
      var i :| 0 <= i < |nodes| && nodes[i].owns && nodes[i].data != 0 && nodes[i].data == p;
      assert nodes'[i] == nodes[i];
    }
  }

  /** No call of the file system frees somebody else's block or turns a block of its own into one. */
  lemma {:induction false} StepKeepsOthers(s: Fs, a: nat, e: nat, op: Op)
    requires Inv(s, a, e) && Allowed(s, op) && !op.OtherHeap?
    ensures Others(Step(s, op)) == Others(s)
  {
    hide H.InMemory, Malloc, Poked, Distinct, Find, Dropped, Grown, Others;
    match op {
      case Make(name, isDir) =>
        BlocksAppend(s.nodes, Node(Clipped(name), isDir, 0, 0, !isDir));
        OthersSame(s, Add(s, name, isDir).s);
      case Remove(name) =>
        var i := Find(s.nodes, s.children, name);
        if name != [] && i < |s.children| {
          DroppedOthers(s, a, e, s.children[i]);
          OthersSame(Dropped(s, s.children[i]), Unlink(s, name).s);
        }
      case WriteTo(id, offset, bytes) =>
        if Grows(s.nodes[id], offset, |bytes|) && Malloc(s.heap.blocks, offset + |bytes|).ptr != 0 {
          GrownHeap(s, a, e, id, offset + |bytes|);
          GrownOthers(s, a, e, id, offset + |bytes|);
          OthersSame(Grown(s, id, offset + |bytes|), Stored(Grown(s, id, offset + |bytes|), id, offset, bytes));
        }
        OthersSame(s, s.(mem := Step(s, op).mem));
      case OtherStore(at, bytes) => OthersSame(s, Step(s, op));
    }
  }

  lemma {:induction false} OthersSame(s: Fs, s': Fs)
    requires s'.heap == s.heap && DataBlocks(s'.nodes) == DataBlocks(s.nodes)
    ensures Others(s') == Others(s)
  {
  }

  lemma {:induction false} OthersConserved(s: Fs, a: nat, e: nat, ops: seq<Op>)
    requires Inv(s, a, e) && AllowedRun(s, ops) && forall k :: 0 <= k < |ops| ==> !ops[k].OtherHeap?
    ensures Others(Run(s, ops)) == Others(s)
    decreases |ops|
  {
    hide Inv, Step, Allowed, Others;
    if ops != [] {
      StepKeepsInv(s, a, e, ops[0]);
      StepKeepsOthers(s, a, e, ops[0]);
      OthersConserved(Step(s, ops[0]), a, e, ops[1..]);
    }
  }

  // ---------------------------------------------------------------- when a block is lost

  lemma {:induction false} SameLeak(s: Fs, s': Fs)
    requires |s'.nodes| >= |s.nodes|
    requires forall i :: 0 <= i < |s.nodes| ==>
      ((i !in s'.children && HasBlock(s'.nodes[i])) <==> (i !in s.children && HasBlock(s.nodes[i])))
    requires forall i :: |s.nodes| <= i < |s'.nodes| ==> !HasBlock(s'.nodes[i])
    ensures HasLeak(s') <==> HasLeak(s)
  {
    if HasLeak(s) {
      var i :| 0 <= i < |s.nodes| && i !in s.children && HasBlock(s.nodes[i]);
      assert i !in s'.children && HasBlock(s'.nodes[i]);
    }
  }

  lemma {:induction false} UnlinkLeak(s: Fs, a: nat, e: nat, name: Name)
    requires Inv(s, a, e)
    ensures HasLeak(Unlink(s, name).s) <==> HasLeak(s)
  {
    hide H.Inv, H.Step, H.StepMemory, Linked, DataOk, Unshared, Sized;
    var k := Find(s.nodes, s.children, name);
    if name != [] && k < |s.children| {
      var s', id := Unlink(s, name).s, s.children[k];
      WithoutMembers(s.children, k);
      hide Without, Shape, NamesOk;
      assert forall i :: 0 <= i < |s.nodes| && i != id ==> s'.nodes[i] == s.nodes[i];
      assert !HasBlock(s'.nodes[id]);
      SameLeak(s, s');
    }
  }

  lemma {:induction false} WithoutMembers(q: seq<nat>, k: nat)
    requires k < |q| && forall i, j :: 0 <= i < j < |q| ==> q[i] != q[j]
    ensures forall x :: x in Without(q, k) <==> x in q && x != q[k]
  {
    WithoutAt(q, k);
    forall x | x in q && x != q[k]
      ensures x in Without(q, k)
    {
      var m :| 0 <= m < |q| && q[m] == x;
      assert Without(q, k)[if m < k then m else m - 1] == x;
    }
  }

  lemma {:induction false} WriteLeak(s: Fs, a: nat, e: nat, op: Op)
    requires Inv(s, a, e) && op.WriteTo? && Allowed(s, op)
    ensures HasLeak(Step(s, op)) <==> HasLeak(s) || Leaks(s, op)
  {
    hide H.InMemory, Malloc, Grown, Poked, HasLeak;
    var id, s', size := op.id, Step(s, op), op.offset + |op.bytes|;
    if Grows(s.nodes[id], op.offset, |op.bytes|) && WriteWorks(s, id, op.offset, |op.bytes|) {
      GrownHeap(s, a, e, id, size);
      GrownChildren(s, id, size);
      assert s'.children == s.children && HasBlock(s'.nodes[id]);
      if id in s.children {
        SameLeak(s, s');
      } else {
        LeakHere(s', id);
      }
    } else {
      SameLeak(s, s');
    }
  }

  lemma {:induction false} GrownChildren(s: Fs, id: nat, size: nat)
    requires id < |s.nodes|
    ensures Grown(s, id, size).children == s.children
  {
  }

  lemma {:induction false} LeakHere(s: Fs, i: nat)
    requires i < |s.nodes| && i !in s.children && HasBlock(s.nodes[i])
    ensures HasLeak(s)
  {
  }

  /** A call leaves a lost block behind exactly when one was there or it grows an unlinked file. */
  lemma {:induction false} LeakStep(s: Fs, a: nat, e: nat, op: Op)
    requires Inv(s, a, e) && Allowed(s, op)
    ensures HasLeak(Step(s, op)) <==> HasLeak(s) || Leaks(s, op)
  {
    hide H.InMemory, H.Step, H.StepMemory, Malloc, Poked, Distinct, Find, Unlink, Backed, HasLeak;
    match op {
      case Make(name, isDir) =>
        assert |s.nodes| !in s.children;
        assert forall i :: 0 <= i < |s.nodes| ==> (i in s.children + [|s.nodes|] <==> i in s.children);
        SameLeak(s, Step(s, op));
      case Remove(name) => UnlinkLeak(s, a, e, name);
      case WriteTo(_, _, _) => WriteLeak(s, a, e, op);
      case OtherHeap(_) => SameLeak(s, Step(s, op));
      case OtherStore(_, _) => SameLeak(s, Step(s, op));
    }
  }

  /** No call of the run grows an unlinked file. */
  predicate NothingLeaks(s: Fs, ops: seq<Op>)
    decreases |ops|
  {
    ops == [] || (!Leaks(s, ops[0]) && NothingLeaks(Step(s, ops[0]), ops[1..]))
  }

  lemma {:induction false} LeakRun(s: Fs, a: nat, e: nat, ops: seq<Op>)
    requires Inv(s, a, e) && AllowedRun(s, ops)
    ensures HasLeak(Run(s, ops)) <==> HasLeak(s) || !NothingLeaks(s, ops)
    decreases |ops|
  {
    hide Inv, Step, Allowed, Leaks, HasLeak;
    if ops != [] {
      StepKeepsInv(s, a, e, ops[0]);
      LeakStep(s, a, e, ops[0]);
      LeakRun(Step(s, ops[0]), a, e, ops[1..]);
    }
  }

  /** What no name leads to is what others have, exactly as long as nothing has leaked. */
  lemma {:induction false} ForeignIsOthers(s: Fs, a: nat, e: nat)
    requires Backed(s, a, e)
    ensures Foreign(s) == Others(s) <==> !HasLeak(s)
    ensures Others(s) <= Foreign(s)
  {
    hide H.InMemory;
    BlocksAreLive(s, a, e);
    if HasLeak(s) {
      var i :| 0 <= i < |s.nodes| && i !in s.children && HasBlock(s.nodes[i]);
      var p := s.nodes[i].data;
      assert p in DataBlocks(s.nodes) && p in s.heap.live;
      assert p !in Owned(s);
      assert p in Foreign(s) && p !in Others(s);
    } else {
      assert DataBlocks(s.nodes) == Owned(s);
    }
  }

  /** Conservation over runs from a state without lost blocks: the live blocks that no name leads to stay
      the same exactly when no call grows an unlinked file. */
  lemma {:induction false} NoBlockLost(s: Fs, a: nat, e: nat, ops: seq<Op>)
    requires Inv(s, a, e) && AllowedRun(s, ops) && !HasLeak(s) && forall k :: 0 <= k < |ops| ==> !ops[k].OtherHeap?
    ensures Foreign(Run(s, ops)) == Foreign(s) <==> NothingLeaks(s, ops)
  {
    hide Run, AllowedRun, Others, Foreign, HasLeak, Backed;
    RunKeepsInv(s, a, e, ops);
    OthersConserved(s, a, e, ops);
    LeakRun(s, a, e, ops);
    ForeignIsOthers(s, a, e);
    ForeignIsOthers(Run(s, ops), a, e);
  }

  /** The run that loses a block: unlink a file, then grow it through the old node pointer. */
  lemma {:induction false} UnlinkedWriteLeaks(s: Fs, a: nat, e: nat, id: nat, n: Node, remove: Op, write: Op)
    requires Inv(s, a, e) && id in s.children && id < |s.nodes| && n == s.nodes[id]
    requires n.owns && !n.isDir && n.size < H.MAX_REQUEST && remove == Remove(n.name) && write == WriteTo(id, n.size, [7])
    requires Malloc(Unlink(s, n.name).s.heap.blocks, n.size + 1).ptr != 0
    ensures AllowedRun(s, [remove, write]) && !NothingLeaks(s, [remove, write])
    ensures HasLeak(Run(s, [remove, write])) && Inv(Run(s, [remove, write]), a, e)
  {
    UnlinkedCanGrow(s, a, e, id, n, remove, write);
    hide Inv, Run, Allowed, Step, Leaks, HasLeak, Malloc, Unlink;
    LeakSecond(s, remove, write);
    LeakRun(s, a, e, [remove, write]);
    RunKeepsInv(s, a, e, [remove, write]);
  }

  lemma {:induction false} UnlinkedCanGrow(s: Fs, a: nat, e: nat, id: nat, n: Node, remove: Op, write: Op)
    requires Inv(s, a, e) && id in s.children && id < |s.nodes| && n == s.nodes[id]
    requires n.owns && !n.isDir && n.size < H.MAX_REQUEST && remove == Remove(n.name) && write == WriteTo(id, n.size, [7])
    requires Malloc(Unlink(s, n.name).s.heap.blocks, n.size + 1).ptr != 0
    ensures Allowed(s, remove) && Allowed(Step(s, remove), write) && Leaks(Step(s, remove), write)
  {
    hide Malloc, Unlink, Find, Tree, EntryOf, Backed;
    var k :| 0 <= k < |s.children| && s.children[k] == id;
    FindsChild(s, k);
    assert |n.name| > 0;
    UnlinkedNode(s, k);
    hide Inv;
  }

  lemma {:induction false} LeakSecond(s: Fs, x: Op, y: Op)
    requires Allowed(s, x) && Allowed(Step(s, x), y) && Leaks(Step(s, x), y)
    ensures AllowedRun(s, [x, y]) && !NothingLeaks(s, [x, y])
  {
    hide Allowed, Step, Leaks;
    var s1 := Step(s, x);
    assert [x, y][1..] == [y] && [y][1..] == [];
    assert AllowedRun(s1, [y]) && !NothingLeaks(s1, [y]);
  }

  lemma {:induction false} UnlinkedNode(s: Fs, k: nat)
    requires Shape(s.nodes, s.children) && k < |s.children| && s.nodes[s.children[k]].name != []
    requires Find(s.nodes, s.children, s.nodes[s.children[k]].name) == k
    ensures var id, s' := s.children[k], Unlink(s, s.nodes[s.children[k]].name).s;
      && id < |s'.nodes| && id !in s'.children
      && s'.nodes[id].owns == s.nodes[id].owns && s'.nodes[id].isDir == s.nodes[id].isDir && s'.nodes[id].size == s.nodes[id].size
  {
    hide H.Step, H.StepMemory;
    WithoutAt(s.children, k);
  }

  // ---------------------------------------------------------------- start

  const ROOT_NAME: Name := [47]
  const HELLO_NAME: Name := [104, 101, 108, 108, 111, 46, 116, 120, 116]
  const HELLO: seq<byte> := [104, 101, 108, 108, 111, 32, 102, 114, 111, 109, 32, 114, 97, 109, 102, 115, 10]

  /** After `ramfs_init`: the root with hello.txt, whose constant text lies at `hello`. */
  function Initial(mem: seq<byte>, hello: nat, heap: H.HeapState): Fs {
    Fs([Node(ROOT_NAME, true, 0, 0, false), Node(HELLO_NAME, false, hello, |HELLO|, false)], [1], mem, heap)
  }

  /** The text is linked into the kernel image, outside the heap. */
  ghost predicate TextAt(mem: seq<byte>, hello: nat, a: nat, e: nat) {
    |mem| == TWO32 && 0 < hello && hello + |HELLO| <= TWO32 && (hello + |HELLO| <= a || e <= hello) &&
    mem[hello..hello + |HELLO|] == HELLO
  }

  lemma {:induction false} InitialInv(mem: seq<byte>, hello: nat, heap: H.HeapState, a: nat, e: nat)
    requires H.InMemory(mem, heap, a, e) && TextAt(mem, hello, a, e)
    ensures Inv(Initial(mem, hello, heap), a, e)
    ensures Tree(Initial(mem, hello, heap)) == map[HELLO_NAME := File(HELLO)]
  {
    hide H.Inv;
    var s := Initial(mem, hello, heap);
    assert s.children[0] == 1 && s.nodes[1].name == HELLO_NAME;
    assert Shape(s.nodes, s.children) && NamesOk(s.nodes, s.children);
    assert EntryOf(s, 1) == File(HELLO);
    var t: map<Name, Entry> := map[HELLO_NAME := File(HELLO)];
    assert AgreesAt(s, t, 0);
    hide Tree, AgreesAt, EntryOf;
    forall i | 0 <= i < |s.children|
      ensures AgreesAt(s, t, i)
    {
      assert i == 0;
    }
    assert HELLO_NAME in Names(s);
    TreeIs(s, t);
  }

  /** In every reachable state the children are dense, distinctly named and fit the array, and all file
      data lies in separate live blocks. */
  lemma {:induction false} ReachableInv(mem: seq<byte>, hello: nat, heap: H.HeapState, a: nat, e: nat, ops: seq<Op>)
    requires H.InMemory(mem, heap, a, e) && TextAt(mem, hello, a, e)
    requires AllowedRun(Initial(mem, hello, heap), ops)
    ensures Inv(Run(Initial(mem, hello, heap), ops), a, e)
    ensures |Run(Initial(mem, hello, heap), ops).children| < MAX_NODES < MAX_CHILDREN
  {
    hide Run, AllowedRun, H.Inv;
    InitialInv(mem, hello, heap, a, e);
    hide Initial;
    RunKeepsInv(Initial(mem, hello, heap), a, e, ops);
  }
}
