/** The RAM file system of ramfs.c as a state machine: a node pool, the children of the root, and file
    data in heap blocks. It behaves like a map from names to byte strings. */
module RamfsTree {
  import opened Arithmetic
  import opened Bytes
  import opened HeapBlocks
  import opened HeapMemory
  import H = HeapRuns

  const NAME_MAX: nat := 128
  const MAX_NODES: nat := 9
  const MAX_CHILDREN: nat := 16

  type Name = seq<byte>

  /** `struct ramfs_node`; `data` 0 is null. Only the root ever gets children. */
  datatype Node = Node(name: Name, isDir: bool, data: nat, size: nat, owns: bool)

  /** The allocated nodes (node 0 is the root), the root's children, all of memory, and the kernel heap:
      its block list, whose headers lie in that memory, with the requested size of every live pointer. */
  datatype Fs = Fs(nodes: seq<Node>, children: seq<nat>, mem: seq<byte>, heap: H.HeapState)

  /** Names are cut to 127 bytes, when a node is made and when a path is resolved. */
  function Clipped(name: Name): Name {
    if |name| >= NAME_MAX then name[..NAME_MAX - 1] else name
  }

  // ---------------------------------------------------------------- invariant

  /** The children are allocated nodes, each listed once. */
  ghost predicate Shape(nodes: seq<Node>, children: seq<nat>) {
    && 0 < |nodes| <= MAX_NODES && nodes[0].isDir && |children| < |nodes|
    && (forall i :: 0 <= i < |children| ==> 0 < children[i] < |nodes|)
    && forall i, j :: 0 <= i < j < |children| ==> children[i] != children[j]
  }

  /** The children have distinct, non-empty names of fewer than 128 bytes. */
  ghost predicate NamesOk(nodes: seq<Node>, children: seq<nat>)
    requires Shape(nodes, children)
  {
    && (forall i :: 0 <= i < |children| ==> 0 < |nodes[children[i]].name| < NAME_MAX)
    && forall i, j :: 0 <= i < j < |children| ==> nodes[children[i]].name != nodes[children[j]].name
  }

  /** A node's data is a live heap block of exactly its size, or constant data outside the heap. */
  ghost predicate NodeOk(n: Node, i: nat, live: map<nat, nat>, a: nat, e: nat) {
    n.data != 0 ==>
      && !n.isDir && 0 < n.size <= H.MAX_REQUEST
      && (n.owns ==> n.data in live && live[n.data] == n.size)
      && (!n.owns ==> i == 1 && n.data + n.size <= TWO32 && (n.data + n.size <= a || e <= n.data))
  }

  ghost predicate DataOk(nodes: seq<Node>, live: map<nat, nat>, a: nat, e: nat) {
    forall i :: 0 <= i < |nodes| ==> NodeOk(nodes[i], i, live, a, e)
  }

  /** No two nodes share data. */
  ghost predicate Unshared(nodes: seq<Node>) {
    forall i, j :: 0 <= i < j < |nodes| && nodes[i].data != 0 ==> nodes[i].data != nodes[j].data
  }

  /** Only unlinked files have a size but no data. */
  ghost predicate Sized(nodes: seq<Node>, children: seq<nat>)
    requires Shape(nodes, children)
  {
    forall i :: 0 <= i < |children| && nodes[children[i]].data == 0 ==> nodes[children[i]].size == 0
  }

  /** The data side of the invariant: the heap's headers are in memory, and file data lies in live heap
      blocks, one for each file. */
  ghost predicate Backed(s: Fs, a: nat, e: nat) {
    && H.InMemory(s.mem, s.heap, a, e)
    && DataOk(s.nodes, s.heap.live, a, e) && Unshared(s.nodes)
  }

  ghost predicate Inv(s: Fs, a: nat, e: nat) {
    && Shape(s.nodes, s.children) && NamesOk(s.nodes, s.children) && Sized(s.nodes, s.children)
    && Backed(s, a, e)
  }

  // ---------------------------------------------------------------- contents

  function Slice(mem: seq<byte>, p: nat, n: nat): seq<byte> {
    if p + n <= |mem| then mem[p..p + n] else []
  }

  function Poked(mem: seq<byte>, p: nat, src: seq<byte>): (r: seq<byte>)
    ensures |r| == |mem|
  {
    if p + |src| <= |mem| then Patched(mem, p, src) else mem
  }

  function DataOf(n: Node, mem: seq<byte>): seq<byte> {
    if n.data == 0 then [] else Slice(mem, n.data, n.size)
  }

  function Contents(s: Fs, id: nat): seq<byte>
    requires id < |s.nodes|
  {
    DataOf(s.nodes[id], s.mem)
  }

  /** What a name stands for. */
  datatype Entry = Directory | File(bytes: seq<byte>)

  function EntryOf(s: Fs, id: nat): Entry
    requires id < |s.nodes|
  {
    if s.nodes[id].isDir then Directory else File(Contents(s, id))
  }

  /** Position of the first child with this name, or the number of children. */
  function Find(nodes: seq<Node>, children: seq<nat>, name: Name): (i: nat)
    ensures i <= |children|
    ensures i < |children| ==> children[i] < |nodes| && nodes[children[i]].name == name
    ensures forall k :: 0 <= k < i && children[k] < |nodes| ==> nodes[children[k]].name != name
  {
    if children == [] then 0
    else if children[0] < |nodes| && nodes[children[0]].name == name then 0
    else 1 + Find(nodes, children[1..], name)
  }

  ghost function Names(s: Fs): set<Name>
    requires Shape(s.nodes, s.children)
  {
    set i | 0 <= i < |s.children| :: s.nodes[s.children[i]].name
  }

  /** The file system as a map. */
  ghost function Tree(s: Fs): map<Name, Entry>
    requires Shape(s.nodes, s.children)
  {
    map name | name in Names(s) :: EntryAt(s, Find(s.nodes, s.children, name))
  }

  ghost function EntryAt(s: Fs, i: nat): Entry
    requires Shape(s.nodes, s.children)
  {
    if i < |s.children| then EntryOf(s, s.children[i]) else Directory
  }

  /** A live node is found under its name. */
  lemma {:induction false} FindsChild(s: Fs, i: nat)
    requires Shape(s.nodes, s.children) && NamesOk(s.nodes, s.children) && i < |s.children|
    ensures var name := s.nodes[s.children[i]].name;
      Find(s.nodes, s.children, name) == i && name in Tree(s) && Tree(s)[name] == EntryOf(s, s.children[i])
  {
    var name := s.nodes[s.children[i]].name;
    var k := Find(s.nodes, s.children, name);
    assert name in Names(s);
    assert !(k < i) && k <= i;
  }

  lemma {:induction false} FindsNone(s: Fs, name: Name)
    requires Shape(s.nodes, s.children)
    ensures Find(s.nodes, s.children, name) == |s.children| <==> name !in Names(s)
    ensures Tree(s).Keys == Names(s)
  {
    var k := Find(s.nodes, s.children, name);
    assert k < |s.children| ==> s.nodes[s.children[k]].name in Names(s);
  }

  /** The map gives this child's entry under its name. */
  ghost predicate AgreesAt(s: Fs, t: map<Name, Entry>, i: nat)
    requires Shape(s.nodes, s.children) && i < |s.children|
  {
    var name := s.nodes[s.children[i]].name;
    name in t && t[name] == EntryOf(s, s.children[i])
  }

  /** A map is the tree of a state when it agrees on every child and has no other name. */
  lemma {:induction false} TreeIs(s: Fs, t: map<Name, Entry>)
    requires Shape(s.nodes, s.children) && NamesOk(s.nodes, s.children)
    requires forall i :: 0 <= i < |s.children| ==> AgreesAt(s, t, i)
    requires forall name :: name in t ==> name in Names(s)
    ensures Tree(s) == t
  {
    hide Tree, NamesOk, Find, AgreesAt, Shape, Names;
    FindsNone(s, []);
    forall name | name in Names(s)
      ensures name in t && name in Tree(s) && Tree(s)[name] == t[name]
    {
      TreeIsAt(s, t, name);
    }
    SameMap(Tree(s), t);
  }

  lemma {:induction false} SameMap<K, V>(x: map<K, V>, y: map<K, V>)
    requires forall k :: k in x ==> k in y && x[k] == y[k]
    requires forall k :: k in y ==> k in x
    ensures x == y
  {
  }

  lemma {:induction false} TreeIsAt(s: Fs, t: map<Name, Entry>, name: Name)
    requires Shape(s.nodes, s.children) && NamesOk(s.nodes, s.children) && name in Names(s)
    requires forall i :: 0 <= i < |s.children| ==> AgreesAt(s, t, i)
    ensures name in t && name in Tree(s) && Tree(s)[name] == t[name]
  {
    var i :| 0 <= i < |s.children| && s.nodes[s.children[i]].name == name;
    hide Tree, EntryOf, NamesOk, Find;
    FindsChild(s, i);
    assert AgreesAt(s, t, i);
  }

  // ---------------------------------------------------------------- operations

  /** What a call returned and the state it left. */
  datatype Outcome = Outcome(r: int, s: Fs)

  /** `ramfs_create`, and `ramfs_mkdir` for a directory. */
  function Add(s: Fs, name: Name, isDir: bool): Outcome
  {
    if name == [] || Find(s.nodes, s.children, name) < |s.children| || |s.nodes| >= MAX_NODES then Outcome(-1, s)
    else
      var s1 := s.(nodes := s.nodes + [Node(Clipped(name), isDir, 0, 0, !isDir)]);
      if |s.children| >= MAX_CHILDREN then Outcome(-1, s1)
      else Outcome(0, s1.(children := s.children + [|s.nodes|]))
  }

  function Without<T>(q: seq<T>, i: nat): seq<T>
    requires i < |q|
  {
    q[..i] + q[i + 1..]
  }

  /** `ramfs_unlink` */
  function Unlink(s: Fs, name: Name): Outcome
  {
    var i := Find(s.nodes, s.children, name);
    if name == [] || i == |s.children| then Outcome(-1, s)
    else Outcome(0, Dropped(s, s.children[i]).(children := Without(s.children, i)))
  }

  /** `kmalloc` or `kfree`: the block list changes, and headers are written to memory. */
  function HeapStep(s: Fs, op: H.Op): Fs {
    s.(heap := H.Step(s.heap, op), mem := H.StepMemory(s.mem, s.heap, op))
  }

  /** A node's own data given back to the heap. */
  function Dropped(s: Fs, id: nat): Fs
    requires id < |s.nodes|
  {
    var n := s.nodes[id];
    if n.owns && n.data != 0 then HeapStep(s.(nodes := s.nodes[id := n.(data := 0)]), H.Release(n.data)) else s
  }

  /** The file needs a larger block for this write. */
  predicate Grows(n: Node, offset: nat, size: nat) {
    n.owns && offset + size > n.size
  }

  /** `ramfs_write`, reached through `vfs_write`: directories have no write operation. */
  function Write(s: Fs, id: nat, offset: nat, bytes: seq<byte>): Outcome
    requires id < |s.nodes|
  {
    var n := s.nodes[id];
    if n.isDir then Outcome(0, s)
    else if Grows(n, offset, |bytes|) then
      if Malloc(s.heap.blocks, offset + |bytes|).ptr == 0 then Outcome(0, s)
      else Outcome(|bytes|, Stored(Grown(s, id, offset + |bytes|), id, offset, bytes))
    else if offset + |bytes| > n.size && offset >= n.size then Outcome(0, s)
    else if n.data == 0 then Outcome(0, s)
    else
      var part := if offset + |bytes| > n.size then bytes[..n.size - offset] else bytes;
      Outcome(|part|, Stored(s, id, offset, part))
  }

  function Stored(s: Fs, id: nat, offset: nat, bytes: seq<byte>): Fs
    requires id < |s.nodes|
  {
    s.(mem := Poked(s.mem, s.nodes[id].data + offset, bytes))
  }

  /** The file moved to a new block of `size` bytes: allocate, copy, free the old block. */
  function Grown(s: Fs, id: nat, size: nat): Fs
    requires id < |s.nodes|
  {
    Moved(HeapStep(s, H.Alloc(size)), id, Malloc(s.heap.blocks, size).ptr, size)
  }

  /** The file's data copied to `ptr`, its old block freed. */
  function Moved(s: Fs, id: nat, ptr: nat, size: nat): Fs
    requires id < |s.nodes|
  {
    var n := s.nodes[id];
    if n.data != 0 && n.size > 0 then HeapStep(Placed(Copied(s, id, ptr), id, ptr, size), H.Release(n.data))
    else Placed(s, id, ptr, size)
  }

  function Copied(s: Fs, id: nat, ptr: nat): Fs
    requires id < |s.nodes|
  {
    s.(mem := Poked(s.mem, ptr, Slice(s.mem, s.nodes[id].data, s.nodes[id].size)))
  }

  function Placed(s: Fs, id: nat, ptr: nat, size: nat): Fs
    requires id < |s.nodes|
  {
    s.(nodes := s.nodes[id := s.nodes[id].(data := ptr, size := size)])
  }

  /** `ramfs_read`, reached through `vfs_read`. */
  function Read(s: Fs, id: nat, offset: nat, size: nat): seq<byte>
    requires id < |s.nodes|
  {
    var n := s.nodes[id];
    if n.isDir || n.data == 0 || offset >= n.size then []
    else if offset + size > n.size then Slice(s.mem, n.data + offset, n.size - offset)
    else Slice(s.mem, n.data + offset, size)
  }

  // ---------------------------------------------------------------- memory

  /** The bytes [p, p + n) and the data of a node have nothing in common. */
  predicate Clear(n: Node, p: nat, size: nat) {
    n.data == 0 || p + size <= n.data || n.data + n.size <= p
  }

  lemma {:induction false} DataInside(s: Fs, a: nat, e: nat, i: nat)
    requires Backed(s, a, e) && i < |s.nodes| && s.nodes[i].data != 0
    ensures s.nodes[i].data + s.nodes[i].size <= TWO32 && 0 < s.nodes[i].size
    ensures |Contents(s, i)| == s.nodes[i].size
  {
    hide H.Inv;
    assert NodeOk(s.nodes[i], i, s.heap.live, a, e);
    if s.nodes[i].owns {
      H.LiveApart(s.heap, a, e, s.nodes[i].data, s.nodes[i].data);
    }
  }

  /** The data of two nodes is apart. */
  lemma {:induction false} NodesApart(s: Fs, a: nat, e: nat, i: nat, j: nat)
    requires Backed(s, a, e) && i < |s.nodes| && j < |s.nodes| && i != j && s.nodes[i].data != 0
    ensures Clear(s.nodes[j], s.nodes[i].data, s.nodes[i].size)
  {
    hide H.Inv;
    var n, m := s.nodes[i], s.nodes[j];
    if m.data != 0 {
      assert NodeOk(n, i, s.heap.live, a, e) && NodeOk(m, j, s.heap.live, a, e);
      assert n.data != m.data;
      if n.owns {
        H.LiveApart(s.heap, a, e, n.data, n.data);
      }
      if m.owns {
        H.LiveApart(s.heap, a, e, m.data, m.data);
      }
      if n.owns && m.owns {
        H.LiveApart(s.heap, a, e, n.data, m.data);
      }
    }
  }

  /** A live block that is no node's data is clear of every node. */
  lemma {:induction false} BlockClear(s: Fs, a: nat, e: nat, p: nat, j: nat)
    requires Backed(s, a, e) && p in s.heap.live && s.heap.live[p] <= H.MAX_REQUEST
    requires j < |s.nodes| && s.nodes[j].data != p
    ensures Clear(s.nodes[j], p, s.heap.live[p])
  {
    hide H.Inv;
    var m := s.nodes[j];
    assert NodeOk(m, j, s.heap.live, a, e);
    H.LiveApart(s.heap, a, e, p, p);
    if m.data != 0 && m.owns {
      H.LiveApart(s.heap, a, e, p, m.data);
    }
  }

  /** No byte of a file belongs to a header of the heap. */
  lemma {:induction false} DataClearOfHeaders(s: Fs, a: nat, e: nat, i: nat, q: nat)
    requires Backed(s, a, e) && i < |s.nodes| && s.nodes[i].data != 0
    requires s.nodes[i].data <= q < s.nodes[i].data + s.nodes[i].size
    ensures !InHeaders(s.heap.blocks, q)
  {
    hide H.Inv, InHeaders, Linked;
    assert NodeOk(s.nodes[i], i, s.heap.live, a, e);
    if s.nodes[i].owns {
      H.LiveClearOfHeaders(s.heap, a, e, s.nodes[i].data, q);
    } else if InHeaders(s.heap.blocks, q) {
      H.HeadersInHeap(s.heap, a, e, q);
    }
  }

  /** The bytes [p, p + n) and the heap's headers have nothing in common. */
  ghost predicate ClearOfHeaders(h: H.HeapState, p: nat, size: nat) {
    forall q :: p <= q < p + size ==> !InHeaders(h.blocks, q)
  }

  lemma {:induction false} LiveIsClear(h: H.HeapState, a: nat, e: nat, p: nat, size: nat)
    requires H.Inv(h, a, e) && p in h.live && size <= h.live[p] <= H.MAX_REQUEST
    ensures ClearOfHeaders(h, p, size)
  {
    hide H.Inv, InHeaders;
    forall q | p <= q < p + size
      ensures !InHeaders(h.blocks, q)
    {
      H.LiveClearOfHeaders(h, a, e, p, q);
    }
  }

  lemma {:induction false} PokedElsewhere(mem: seq<byte>, p: nat, src: seq<byte>, q: nat)
    requires q < |mem| && !(p <= q < p + |src|)
    ensures Poked(mem, p, src)[q] == mem[q]
  {
  }

  /** Bytes stored clear of the headers leave the heap as it is. */
  lemma {:induction false} PokeKeepsHeap(mem: seq<byte>, h: H.HeapState, a: nat, e: nat, p: nat, src: seq<byte>)
    requires H.InMemory(mem, h, a, e) && ClearOfHeaders(h, p, |src|)
    ensures H.InMemory(Poked(mem, p, src), h, a, e)
  {
    hide H.Inv, Poked, Linked;
    forall q | 0 <= q < |mem| && InHeaders(h.blocks, q)
      ensures Poked(mem, p, src)[q] == mem[q]
    {
      PokedElsewhere(mem, p, src, q);
    }
    H.PayloadWriteKeepsHeap(mem, Poked(mem, p, src), h, a, e);
  }

  /** Writing elsewhere leaves a node's data alone. */
  lemma {:induction false} PokeKeeps(n: Node, mem: seq<byte>, p: nat, src: seq<byte>)
    requires Clear(n, p, |src|)
    ensures DataOf(n, Poked(mem, p, src)) == DataOf(n, mem)
  {
    if n.data != 0 && n.data + n.size <= |mem| && p + |src| <= |mem| {
      var x, y := DataOf(n, Poked(mem, p, src)), DataOf(n, mem);
      assert forall k :: 0 <= k < n.size ==> x[k] == y[k];
    }
  }

  // ---------------------------------------------------------------- writing into a block

  /** Every node but `id` keeps its record and its bytes. */
  ghost predicate OthersKept(s: Fs, s': Fs, id: int) {
    |s'.nodes| == |s.nodes| && forall j :: 0 <= j < |s.nodes| && j != id ==> NodeKept(s, s', j)
  }

  predicate NodeKept(s: Fs, s': Fs, j: nat)
    requires j < |s.nodes| && j < |s'.nodes|
  {
    s'.nodes[j] == s.nodes[j] && DataOf(s'.nodes[j], s'.mem) == DataOf(s.nodes[j], s.mem)
  }

  lemma {:induction false} StoredStep(s: Fs, a: nat, e: nat, id: nat, offset: nat, bytes: seq<byte>)
    requires Backed(s, a, e) && id < |s.nodes| && s.nodes[id].data != 0 && offset + |bytes| <= s.nodes[id].size
    ensures Backed(Stored(s, id, offset, bytes), a, e) && OthersKept(s, Stored(s, id, offset, bytes), id)
    ensures |Contents(s, id)| == s.nodes[id].size
    ensures Contents(Stored(s, id, offset, bytes), id) == Patched(Contents(s, id), offset, bytes)
  {
    hide H.InMemory, Poked;
    var n, s' := s.nodes[id], Stored(s, id, offset, bytes);
    DataInside(s, a, e, id);
    forall q | n.data + offset <= q < n.data + offset + |bytes|
      ensures !InHeaders(s.heap.blocks, q)
    {
      DataClearOfHeaders(s, a, e, id, q);
    }
    PokeKeepsHeap(s.mem, s.heap, a, e, n.data + offset, bytes);
    forall j | 0 <= j < |s.nodes| && j != id
      ensures NodeKept(s, s', j)
    {
      NodesApart(s, a, e, id, j);
      PokeKeeps(s.nodes[j], s.mem, n.data + offset, bytes);
    }
    MemorySize(s, a, e);
    PokedInside(s.mem, n.data, n.size, offset, bytes);
  }

  lemma {:induction false} MemorySize(s: Fs, a: nat, e: nat)
    requires Backed(s, a, e)
    ensures |s.mem| == TWO32
  {
  }

  lemma {:induction false} PokedInside(mem: seq<byte>, p: nat, n: nat, offset: nat, bytes: seq<byte>)
    requires p + n <= |mem| && offset + |bytes| <= n
    ensures |Slice(mem, p, n)| == n
    ensures Slice(Poked(mem, p + offset, bytes), p, n) == Patched(Slice(mem, p, n), offset, bytes)
  {
  }

  // ---------------------------------------------------------------- paths

  const SLASH: byte := 47

  function SkipSlashes(path: seq<byte>, p: nat): (q: nat)
    requires p <= |path|
    ensures p <= q <= |path| && (q < |path| ==> path[q] != SLASH)
    ensures forall i :: p <= i < q ==> path[i] == SLASH
    decreases |path| - p
  {
    if p < |path| && path[p] == SLASH then SkipSlashes(path, p + 1) else p
  }

  function NameEnd(path: seq<byte>, p: nat): (q: nat)
    requires p <= |path|
    ensures p <= q <= |path| && (q < |path| ==> path[q] == SLASH)
    ensures forall i :: p <= i < q ==> path[i] != SLASH
    decreases |path| - p
  {
    if p < |path| && path[p] != SLASH then NameEnd(path, p + 1) else p
  }

  /** The names in a path from index `p` on; runs of slashes count as one. */
  function Components(path: seq<byte>, p: nat): seq<Name>
    requires p <= |path|
    decreases |path| - p
  {
    var q := SkipSlashes(path, p);
    if q == |path| then [] else [path[q..NameEnd(path, q)]] + Components(path, NameEnd(path, q))
  }

  /** `vfs_finddir`: files have no finddir operation, and directories below the root are empty. */
  function Child(s: Fs, id: int, name: Name): int {
    var i := Find(s.nodes, s.children, name);
    if id == 0 && i < |s.children| then s.children[i] else -1
  }

  function Walk(s: Fs, id: int, names: seq<Name>): int
    decreases |names|
  {
    if names == [] || id == -1 then id else Walk(s, Child(s, id, Clipped(names[0])), names[1..])
  }

  /** `vfs_resolve_path`; -1 is null. */
  function Resolve(s: Fs, path: seq<byte>): int {
    if path == [] then -1 else Walk(s, 0, Components(path, 0))
  }

  function Slashes(k: nat): seq<byte> {
    seq(k, _ => SLASH)
  }

  lemma {:induction false} SkipIs(path: seq<byte>, p: nat, q: nat)
    requires p <= q <= |path| && (q < |path| ==> path[q] != SLASH) && forall i :: p <= i < q ==> path[i] == SLASH
    ensures SkipSlashes(path, p) == q
    decreases q - p
  {
    if p < q {
      SkipIs(path, p + 1, q);
    }
  }

  lemma {:induction false} NameEndIs(path: seq<byte>, p: nat, q: nat)
    requires p <= q <= |path| && (q < |path| ==> path[q] == SLASH) && forall i :: p <= i < q ==> path[i] != SLASH
    ensures NameEnd(path, p) == q
    decreases q - p
  {
    if p < q {
      NameEndIs(path, p + 1, q);
    }
  }

  lemma {:induction false} OneComponent(k: nat, name: Name, m: nat)
    requires name != [] && SLASH !in name
    ensures Components(Slashes(k) + name + Slashes(m), 0) == [name]
  {
    var path := Slashes(k) + name + Slashes(m);
    assert path[k] == name[0] != SLASH;
    assert forall i :: k <= i < k + |name| ==> path[i] == name[i - k] && path[i] != SLASH;
    assert forall i :: 0 <= i < k ==> path[i] == SLASH;
    assert forall i :: k + |name| <= i < |path| ==> path[i] == SLASH;
    SkipIs(path, 0, k);
    NameEndIs(path, k, k + |name|);
    SkipIs(path, k + |name|, |path|);
    assert path[k..k + |name|] == name;
  }

  /** A name with any slashes around it leads exactly to the live node of that name. */
  lemma {:induction false} ResolveName(s: Fs, k: nat, name: Name, m: nat)
    requires Shape(s.nodes, s.children) && NamesOk(s.nodes, s.children) && name != [] && SLASH !in name
    ensures var r := Resolve(s, Slashes(k) + name + Slashes(m));
      && (r == -1 <==> Clipped(name) !in Names(s))
      && forall id: nat :: r == id <==> id in s.children && s.nodes[id].name == Clipped(name)
  {
    OneComponent(k, name, m);
    var c := Clipped(name);
    FindsNone(s, c);
    var r := Resolve(s, Slashes(k) + name + Slashes(m));
    assert r == Walk(s, Child(s, 0, c), [name][1..]) == Child(s, 0, c);
    hide Find, Resolve, Walk, Components;
    forall id: nat | id in s.children && s.nodes[id].name == c
      ensures r == id
    {
      var i :| 0 <= i < |s.children| && s.children[i] == id;
      FindsChild(s, i);
    }
  }

  /** Nothing lies below the root's own children. */
  lemma {:induction false} NothingDeeper(s: Fs, path: seq<byte>)
    requires path != [] && Shape(s.nodes, s.children) && |Components(path, 0)| >= 2
    ensures Resolve(s, path) == -1
  {
    var names := Components(path, 0);
    var c := Child(s, 0, Clipped(names[0]));
    assert c != 0;
    var rest := names[1..];
    assert rest[0] == names[1] && Child(s, c, Clipped(rest[0])) == -1;
    assert Walk(s, -1, rest[1..]) == -1;
    assert Walk(s, c, rest) == -1;
  }
}
