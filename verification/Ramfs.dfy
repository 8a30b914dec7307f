/** The RAM file system of ramfs.c and path resolution of vfs.c, with their static variables, proved
    against the state machine. */
module Ramfs {
  import opened Arithmetic
  import opened Bytes
  import opened HeapBlocks
  import opened HeapMemory
  import opened Heap
  import H = HeapRuns
  import opened RamfsTree
  import R = RamfsRuns

  /** The loop that moves the later children down, with a null in the place that becomes free. */
  method ShiftDown(a: array<nat>, n: nat, i: nat)
    requires i < n <= a.Length
    modifies a
    ensures a[..n - 1] == Without(old(a[..n]), i) && a[n - 1] == 0
  {
    var j := i;
    while j + 1 < n
      invariant i <= j < n
      invariant forall k :: 0 <= k < i || j <= k < n ==> a[k] == old(a[k])
      invariant forall k :: i <= k < j ==> a[k] == old(a[k + 1])
    {
      a[j] := a[j + 1];
      j := j + 1;
    }
    a[n - 1] := 0;
    R.WithoutAt(old(a[..n]), i);
    assert a[..n - 1] == Without(old(a[..n]), i);
  }

  class RamFileSystem {
    var nodes: array<Node>
    var nodeCount: nat
    var children: array<nat>
    var childCount: nat
    /** The heap, with all of memory: file data is read and written there. */
    var heap: KernelHeap
    ghost var live: map<nat, nat>

    ghost predicate Sound()
      reads this, heap
    {
      nodes.Length == MAX_NODES && children.Length == MAX_CHILDREN && nodeCount <= MAX_NODES && childCount <= MAX_CHILDREN &&
      heap.Valid()
    }

    ghost function State(): Fs
      requires Sound()
      reads this, nodes, children, heap
    {
      Fs(nodes[..nodeCount], children[..childCount], heap.mem, H.HeapState(heap.blocks, live))
    }

    ghost predicate Valid()
      reads this, nodes, children, heap
    {
      Sound() && Inv(State(), heap.heapStart, heap.heapEnd)
    }

    /** `ramfs_init` */
    constructor (hello: nat, h: KernelHeap, ghost tracked: map<nat, nat>)
      requires h.Valid() && H.Inv(H.HeapState(h.blocks, tracked), h.heapStart, h.heapEnd)
      requires R.TextAt(h.mem, hello, h.heapStart, h.heapEnd)
      ensures Valid() && heap == h && fresh(nodes) && fresh(children)
      ensures State() == R.Initial(h.mem, hello, H.HeapState(h.blocks, tracked))
    {
      nodes := new Node[MAX_NODES](_ => Node([], false, 0, 0, false));
      children := new nat[MAX_CHILDREN](_ => 0);
      nodeCount, childCount, heap, live := 2, 1, h, tracked;
      new;
      nodes[0] := Node(R.ROOT_NAME, true, 0, 0, false);
      nodes[1] := Node(R.HELLO_NAME, false, hello, |R.HELLO|, false);
      children[0] := 1;
      assert nodes[..2] == [nodes[0], nodes[1]] && children[..1] == [1];
      R.InitialInv(h.mem, hello, H.HeapState(h.blocks, tracked), h.heapStart, h.heapEnd);
    }

    /** `ramfs_finddir` on the root: the position among the children, or their number. */
    method FindChild(name: Name) returns (i: nat)
      requires Valid()
      ensures i == Find(nodes[..nodeCount], children[..childCount], name)
    {
      i := 0;
      ghost var ns, cs := nodes[..nodeCount], children[..childCount];
      while i < childCount && nodes[children[i]].name != name
        invariant i <= childCount
        invariant forall k :: 0 <= k < i ==> ns[cs[k]].name != name
      {
        assert ns[cs[i]] == nodes[children[i]];
        i := i + 1;
      }
      assert i < childCount ==> ns[cs[i]] == nodes[children[i]];
      FindIs(ns, cs, name, i);
    }

    /** `ramfs_alloc_node`: the next node of the pool, or -1. Nodes are never given back. */
    method AllocNode(name: Name, isDir: bool, owns: bool) returns (id: int)
      requires Sound()
      modifies this`nodeCount, nodes
      ensures Sound() && (id == -1 <==> old(nodeCount) == 9)
      ensures id == -1 ==> State() == old(State())
      ensures id != -1 ==>
        id == old(nodeCount) && State() == old(State()).(nodes := old(State()).nodes + [Node(Clipped(name), isDir, 0, 0, owns)])
    {
      if nodeCount >= MAX_NODES {
        return -1;
      }
      nodes[nodeCount] := Node(Clipped(name), isDir, 0, 0, owns);
      nodeCount := nodeCount + 1;
      assert nodes[..nodeCount] == old(State()).nodes + [Node(Clipped(name), isDir, 0, 0, owns)];
      return nodeCount - 1;
    }

    /** `ramfs_add_child` to the root. */
    method AddChild(id: nat) returns (r: int)
      requires Sound()
      modifies this`childCount, children
      ensures Sound() && (r == 0 || r == -1) && (r == -1 <==> old(childCount) == 16)
      ensures r == -1 ==> State() == old(State())
      ensures r == 0 ==> State() == old(State()).(children := old(State()).children + [id])
    {
      if childCount >= MAX_CHILDREN {
        return -1;
      }
      children[childCount] := id;
      childCount := childCount + 1;
      assert children[..childCount] == old(State()).children + [id];
      return 0;
    }

    /** `ramfs_create`, and `ramfs_mkdir` for a directory: look the name up, take a node, add the child.
        The file system stays valid unless a name cut to 127 bytes is already there. */
    method Make(name: Name, isDir: bool) returns (r: int)
      requires Valid()
      modifies this`nodeCount, this`childCount, nodes, children
      ensures Sound() && r == Add(old(State()), name, isDir).r && State() == Add(old(State()), name, isDir).s
      ensures Valid() <==> r == -1 || R.Distinct(old(State()), name)
    {
      hide H.Inv, Backed, NamesOk, Sized, Shape, Clipped;
      ghost var s := State();
      R.AddEffect(s, heap.heapStart, heap.heapEnd, name, isDir);
      if name == [] {
        return -1;
      }
      var i := FindChild(name);
      if i < childCount {
        return -1;
      }
      var id := AllocNode(name, isDir, !isDir);
      if id == -1 {
        return -1;
      }
      r := AddChild(id);
    }

    /** `ramfs_unlink` closes the gap at position `i`. */
    method CloseGap(i: nat)
      requires Sound() && i < childCount
      modifies this`childCount, children
      ensures Sound() && State() == old(State()).(children := Without(old(State()).children, i))
    {
      hide Without, Proper, Linked;
      ShiftDown(children, childCount, i);
      childCount := childCount - 1;
    }

    /** `ramfs_unlink`. Directories below the root never have children. */
    method Remove(name: Name) returns (r: int)
      requires Valid()
      modifies this`childCount, this`live, nodes, children, heap`mem, heap`blocks
      ensures Valid() && r == Unlink(old(State()), name).r && State() == Unlink(old(State()), name).s
    {
      hide H.Inv, NamesOk, Sized, Without, Dropped, Find, Shape, Backed, H.Step;
      ghost var s := State();
      R.UnlinkEffect(s, heap.heapStart, heap.heapEnd, name);
      if name == [] {
        return -1;
      }
      var i := FindChild(name);
      if i == childCount {
        return -1;
      }
      FreeData(children[i]);
      CloseGap(i);
      return 0;
    }

    /** `kfree` of a node's own data. */
    method FreeData(id: nat)
      requires Sound() && id < nodeCount && Backed(State(), heap.heapStart, heap.heapEnd)
      modifies this`live, nodes, heap`mem, heap`blocks
      ensures Sound() && State() == Dropped(old(State()), id)
    {
      hide H.Inv, DataOk, Unshared, Free, Linked, FreeMemory;
      ghost var s := State();
      if nodes[id].owns && nodes[id].data != 0 {
        var data := nodes[id].data;
        R.NodeIsLive(s, heap.heapStart, heap.heapEnd, id);
        R.HeapReleases(s.heap, heap.heapStart, heap.heapEnd, data);
        heap.Kfree(data);
        live := live - {data};
        nodes[id] := nodes[id].(data := 0);
        assert nodes[..nodeCount] == s.nodes[id := s.nodes[id].(data := 0)];
      }
    }

    /** The growing part of `ramfs_write`: a new block, the old bytes copied, the old block freed. */
    method Grow(id: nat, size: nat) returns (ok: bool)
      requires Sound() && id < nodeCount && Backed(State(), heap.heapStart, heap.heapEnd)
      requires nodes[id].owns && nodes[id].size < size <= H.MAX_REQUEST
      modifies this`live, nodes, heap`mem, heap`blocks
      ensures Sound() && (ok <==> Malloc(old(heap.blocks), size).ptr != 0)
      ensures State() == if ok then Grown(old(State()), id, size) else old(State())
    {
      hide H.Inv, Malloc, Free, DataOk, Unshared, Moved, Linked, AllocMemory;
      ghost var s, a, e := State(), heap.heapStart, heap.heapEnd;
      var data := heap.Kmalloc(size);
      if data == 0 {
        MallocFails(s.heap.blocks, size);
        NothingWritten(s.mem, s.heap.blocks, size);
        return false;
      }
      R.HeapAllocates(s.heap, a, e, size);
      H.LiveApart(H.Step(s.heap, H.Alloc(size)), a, e, data, data);
      LiveIsClear(H.Step(s.heap, H.Alloc(size)), a, e, data, nodes[id].size);
      if nodes[id].data != 0 {
        DataInside(s, a, e, id);
        R.NodeIsLive(s, a, e, id);
      }
      live := live[data := size];
      assert State() == HeapStep(s, H.Alloc(size));
      MoveData(id, data, size);
      return true;
    }

    /** Copy the file's data to the block at `data` and free the old block. */
    method MoveData(id: nat, data: nat, size: nat)
      requires Sound() && id < nodeCount && H.Inv(State().heap, heap.heapStart, heap.heapEnd)
      requires data + nodes[id].size <= |heap.mem|
      requires nodes[id].data != 0 ==> nodes[id].data in live && nodes[id].data + nodes[id].size <= |heap.mem|
      requires nodes[id].data != 0 ==> ClearOfHeaders(State().heap, data, nodes[id].size)
      modifies this`live, nodes, heap`mem, heap`blocks
      ensures Sound() && State() == Moved(old(State()), id, data, size)
    {
      hide H.Inv, Free, Linked, FreeMemory, Proper;
      ghost var s := State();
      var n := nodes[id];
      if n.data != 0 && n.size > 0 {
        CopyData(data, heap.mem[n.data..n.data + n.size]);
        R.HeapReleases(s.heap, heap.heapStart, heap.heapEnd, n.data);
        heap.Kfree(n.data);
        live := live - {n.data};
      }
      nodes[id] := n.(data := data, size := size);
      assert nodes[..nodeCount] == s.nodes[id := n.(data := data, size := size)];
    }

    /** `memcpy` to an address clear of the heap's headers. */
    method CopyData(at: nat, bytes: seq<byte>)
      requires Sound() && at + |bytes| <= |heap.mem|
      requires forall q :: at <= q < at + |bytes| ==> !InHeaders(heap.blocks, q)
      modifies heap`mem
      ensures Sound() && State() == old(State()).(mem := Poked(old(heap.mem), at, bytes))
    {
      hide Proper, Linked, Patched;
      ghost var before := heap.mem;
      forall q | 0 <= q < |before| && InHeaders(heap.blocks, q)
        ensures Poked(before, at, bytes)[q] == before[q]
      {
        PokedElsewhere(before, at, bytes, q);
      }
      LinkedFrame(before, Poked(before, at, bytes), heap.blocks, 0);
      heap.mem := Patched(heap.mem, at, bytes);
    }

    /** `ramfs_write`, reached through `vfs_write`. */
    method WriteFile(id: nat, offset: nat, bytes: seq<byte>) returns (r: nat)
      requires Valid() && R.WriteAllowed(State(), id, offset, |bytes|)
      modifies this`live, nodes, heap`mem, heap`blocks
      ensures Valid() && r == Write(old(State()), id, offset, bytes).r && State() == Write(old(State()), id, offset, bytes).s
    {
      hide Inv, Malloc, Backed, Write, Stored, Proper, Linked, R.WriteAllowed;
      ghost var s, a, e := State(), heap.heapStart, heap.heapEnd;
      R.WriteEffect(s, a, e, id, offset, bytes);
      var room := MakeRoom(id, offset, bytes);
      if room < 0 {
        return 0;
      }
      Store(id, offset, bytes[..room]);
      return room;
    }

    /** `ramfs_write` up to its final copy: how many bytes to copy, or -1 to give up. */
    method MakeRoom(id: nat, offset: nat, bytes: seq<byte>) returns (room: int)
      requires Valid() && R.WriteAllowed(State(), id, offset, |bytes|)
      modifies this`live, nodes, heap`mem, heap`blocks
      ensures Sound() && id < nodeCount && room <= |bytes|
      ensures room < 0 ==> State() == old(State()) && Write(old(State()), id, offset, bytes) == Outcome(0, old(State()))
      ensures room >= 0 ==>
        && Backed(State(), heap.heapStart, heap.heapEnd) && nodes[id].data != 0 && offset + room <= nodes[id].size
        && Write(old(State()), id, offset, bytes) == Outcome(room, Stored(State(), id, offset, bytes[..room]))
    {
      hide Malloc, NamesOk, Sized, Shape, Backed, Grown, Stored, Proper, Linked;
      ghost var s, a, e := State(), heap.heapStart, heap.heapEnd;
      var n, size := nodes[id], |bytes|;
      assert s.nodes[id] == n && bytes[..|bytes|] == bytes;
      if n.isDir {
        return -1;
      }
      if offset + size > n.size {
        if !n.owns {
          if offset >= n.size {
            return -1;
          }
          size := n.size - offset;
        } else {
          hide Inv;
          if Malloc(s.heap.blocks, offset + size).ptr != 0 {
            R.GrownStep(s, a, e, id, offset + size);
            GrownNode(s, id, offset + size);
          }
          var ok := Grow(id, offset + size);
          if !ok {
            return -1;
          }
        }
      }
      if nodes[id].data == 0 {
        return -1;
      }
      return size;
    }

    /** The final copy of `ramfs_write`, inside the file's data. */
    method Store(id: nat, offset: nat, bytes: seq<byte>)
      requires Sound() && id < nodeCount && Backed(State(), heap.heapStart, heap.heapEnd)
      requires nodes[id].data != 0 && offset + |bytes| <= nodes[id].size
      modifies heap`mem
      ensures Sound() && State() == Stored(old(State()), id, offset, bytes)
    {
      hide H.Inv, DataOk, Unshared, Linked, InHeaders, Poked;
      ghost var s, n := State(), nodes[id];
      DataInside(s, heap.heapStart, heap.heapEnd, id);
      forall q | n.data + offset <= q < n.data + offset + |bytes|
        ensures !InHeaders(heap.blocks, q)
      {
        DataClearOfHeaders(s, heap.heapStart, heap.heapEnd, id, q);
      }
      CopyData(nodes[id].data + offset, bytes);
    }

    /** `vfs_finddir`: only the root has children to offer. */
    method FindDir(id: nat, name: Name) returns (r: int)
      requires Valid() && id < nodeCount
      ensures r == Child(State(), id, name) && -1 <= r < nodeCount
    {
      if id != 0 {
        return -1;
      }
      var i := FindChild(name);
      if i == childCount {
        return -1;
      }
      return children[i];
    }

    /** `vfs_resolve_path` */
    method ResolvePath(path: seq<byte>) returns (r: int)
      requires Valid()
      ensures r == Resolve(State(), path)
    {
      if path == [] {
        return -1;
      }
      hide H.Inv, Find, Inv;
      r := 0;
      var p := PassSlashes(path, 0);
      SkipTwice(path, 0);
      while p < |path|
        invariant p <= |path| && 0 <= r < nodeCount && SkipSlashes(path, p) == p
        invariant Walk(State(), r, Components(path, p)) == Resolve(State(), path)
        decreases |path| - p
      {
        var name, q := TakeName(path, p);
        ComponentStep(State(), path, p, r);
        r := FindDir(r, name);
        if r == -1 {
          return;
        }
        p := PassSlashes(path, q);
        SkipTwice(path, q);
      }
    }

    /** `while (*p == '/') p++` */
    method PassSlashes(path: seq<byte>, start: nat) returns (p: nat)
      requires start <= |path|
      ensures p == SkipSlashes(path, start)
    {
      p := start;
      while p < |path| && path[p] == SLASH
        invariant start <= p <= |path| && SkipSlashes(path, p) == SkipSlashes(path, start)
      {
        p := p + 1;
      }
    }

    /** The inner loop of `vfs_resolve_path`: at most 127 bytes of the name go into the buffer. */
    method TakeName(path: seq<byte>, start: nat) returns (name: Name, p: nat)
      requires start <= |path|
      ensures p == NameEnd(path, start) && name == Clipped(path[start..p])
    {
      p, name := start, [];
      hide Clipped, NameEnd;
      ClippedStep([], 0);
      assert path[start..start] == [];
      while p < |path| && path[p] != SLASH
        invariant start <= p <= |path| && NameEnd(path, p) == NameEnd(path, start)
        invariant name == Clipped(path[start..p])
      {
        NameStep(path, start, p);
        ClippedStep(path[start..p], path[p]);
        if |name| + 1 < NAME_MAX {
          name := name + [path[p]];
        }
        p := p + 1;
      }
      NameEndIs(path, p, p);
    }

    /** `ramfs_read`, reached through `vfs_read`. */
    method ReadFile(id: nat, offset: nat, size: nat) returns (bytes: seq<byte>)
      requires Valid() && id < nodeCount && (offset < nodes[id].size ==> offset + size < TWO32)
      ensures bytes == Read(State(), id, offset, size)
    {
      hide H.InMemory, Shape, NamesOk, Sized, Linked, Proper;
      ghost var s := State();
      var n := nodes[id];
      assert s.nodes[id] == n;
      if n.isDir || n.data == 0 || offset >= n.size {
        return [];
      }
      DataInside(s, heap.heapStart, heap.heapEnd, id);
      hide Backed;
      var count := if offset + size > n.size then n.size - offset else size;
      return heap.mem[n.data + offset..n.data + offset + count];
    }
  }

  lemma {:induction false} FindIs(nodes: seq<Node>, children: seq<nat>, name: Name, i: nat)
    requires forall k :: 0 <= k < |children| ==> children[k] < |nodes|
    requires i <= |children| && forall k :: 0 <= k < i ==> nodes[children[k]].name != name
    requires i < |children| ==> nodes[children[i]].name == name
    ensures Find(nodes, children, name) == i
  {
    var k := Find(nodes, children, name);
    assert !(k < i) && !(i < k);
  }

  lemma {:induction false} GrownNode(s: Fs, id: nat, size: nat)
    requires id < |s.nodes|
    ensures |Grown(s, id, size).nodes| == |s.nodes|
    ensures Grown(s, id, size).nodes[id] == s.nodes[id].(data := Malloc(s.heap.blocks, size).ptr, size := size)
  {
  }

  lemma {:induction false} NothingWritten(mem: seq<byte>, bs: seq<Block>, request: nat)
    requires Malloc(bs, request).ptr == 0
    ensures AllocMemory(mem, bs, request) == mem
  {
  }

  lemma {:induction false} NameStep(path: seq<byte>, start: nat, p: nat)
    requires start <= p < |path| && path[p] != SLASH
    ensures path[start..p + 1] == path[start..p] + [path[p]] && NameEnd(path, p + 1) == NameEnd(path, p)
  {
  }

  lemma {:induction false} ClippedStep(name: Name, x: byte)
    ensures Clipped([]) == []
    ensures Clipped(name + [x]) == if |Clipped(name)| + 1 < NAME_MAX then Clipped(name) + [x] else Clipped(name)
  {
    assert |name| >= NAME_MAX - 1 ==> (name + [x])[..NAME_MAX - 1] == name[..NAME_MAX - 1];
  }

  lemma {:induction false} SkipTwice(path: seq<byte>, p: nat)
    requires p <= |path|
    ensures SkipSlashes(path, SkipSlashes(path, p)) == SkipSlashes(path, p)
    ensures Components(path, SkipSlashes(path, p)) == Components(path, p)
  {
  }

  lemma {:induction false} ComponentStep(s: Fs, path: seq<byte>, p: nat, id: nat)
    requires p < |path| && SkipSlashes(path, p) == p
    ensures var q := NameEnd(path, p);
      q > p && Walk(s, id, Components(path, p)) == Walk(s, Child(s, id, Clipped(path[p..q])), Components(path, q))
    ensures forall names :: Walk(s, -1, names) == -1
  {
    var q := NameEnd(path, p);
    assert ([path[p..q]] + Components(path, q))[1..] == Components(path, q);
  }
}
