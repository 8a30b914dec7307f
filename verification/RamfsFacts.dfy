/** Limits, names and paths of the RAM file system in plain numbers and characters, and what a new file is good
    for. */
module RamfsFacts {
  import opened Bytes
  import opened HeapBlocks
  import H = HeapRuns
  import opened RamfsTree
  import R = RamfsRuns

  // ---------------------------------------------------------------- names and limits

  /** A name keeps at most its first 127 bytes. */
  lemma {:induction false} ClippedIs(name: Name)
    ensures Clipped(name) == if |name| <= 127 then name else name[..127]
  {
  }

  /** The bytes of a text. */
  predicate Spells(s: seq<byte>, text: string) {
    |s| == |text| && forall i :: 0 <= i < |text| ==> s[i] == text[i] as int
  }

  /** At the start there is one file, hello.txt. */
  lemma {:induction false} FirstFile(mem: seq<byte>, hello: nat, heap: H.HeapState, a: nat, e: nat)
    requires H.InMemory(mem, heap, a, e) && R.TextAt(mem, hello, a, e)
    ensures var s := R.Initial(mem, hello, heap);
      && Inv(s, a, e) && |s.nodes| == 2 && s.children == [1] && s.nodes[0].isDir && !s.nodes[1].isDir
      && Spells(s.nodes[0].name, "/") && Spells(s.nodes[1].name, "hello.txt") && Spells(Contents(s, 1), "hello from ramfs\n")
      && Tree(s).Keys == {s.nodes[1].name}
  {
    R.InitialInv(mem, hello, heap, a, e);
    hide Inv, Tree;
    HelloSpelled();
  }

  lemma {:induction false} HelloSpelled()
    ensures Spells(R.ROOT_NAME, "/") && Spells(R.HELLO_NAME, "hello.txt") && Spells(R.HELLO, "hello from ramfs\n")
  {
  }

  /** A new name is taken as long as fewer than nine nodes were ever used; the 16 places of the root are never
      all needed. */
  lemma {:induction false} PoolOfNine(s: Fs, a: nat, e: nat, name: Name, isDir: bool)
    requires Inv(s, a, e)
    ensures Add(s, name, isDir).r == 0 <==> name != [] && name !in Names(s) && |s.nodes| < 9
    ensures Add(s, name, isDir).r == 0 ==> |Add(s, name, isDir).s.nodes| == |s.nodes| + 1
    ensures |Add(s, name, isDir).s.children| < 16
  {
    R.AddEffect(s, a, e, name, isDir);
    hide Backed, Tree, Find;
  }

  // ---------------------------------------------------------------- a new file

  /** A file that was just made is empty; a write to it is accepted whole exactly when the heap has a block for
      it, and is then what the file holds, behind `offset` bytes. */
  lemma {:induction false} NewFileTakesBytes(s: Fs, a: nat, e: nat, name: Name, offset: nat, bytes: seq<byte>)
    requires Inv(s, a, e) && R.Distinct(s, name) && Add(s, name, false).r == 0
    requires bytes != [] && offset + |bytes| <= H.MAX_REQUEST
    ensures var s1, id := Add(s, name, false).s, |s.nodes|;
      && Inv(s1, a, e) && id < |s1.nodes| && id in s1.children && Contents(s1, id) == []
      && s1.nodes[id].name == Clipped(name)
      && Write(s1, id, offset, bytes).r ==
         (if Malloc(s.heap.blocks, offset + |bytes|).ptr != 0 then |bytes| else 0)
      && (Write(s1, id, offset, bytes).r != 0 ==>
            var c := Contents(Write(s1, id, offset, bytes).s, id);
            |c| == offset + |bytes| && c[offset..] == bytes)
  {
    var s1, id := Add(s, name, false).s, |s.nodes|;
    R.AddEffect(s, a, e, name, false);
    NewNode(s, name, false);
    hide Inv, Tree, Find, Malloc, Add, Write, R.Distinct;
    EmptyFileTakes(s1, a, e, id, offset, bytes);
  }

  lemma {:induction false} EmptyFileTakes(s: Fs, a: nat, e: nat, id: nat, offset: nat, bytes: seq<byte>)
    requires Inv(s, a, e) && id < |s.nodes| && s.nodes[id] == Node(s.nodes[id].name, false, 0, 0, true)
    requires bytes != [] && offset + |bytes| <= H.MAX_REQUEST
    ensures var o := Write(s, id, offset, bytes);
      && o.r == (if Malloc(s.heap.blocks, offset + |bytes|).ptr != 0 then |bytes| else 0) && id < |o.s.nodes|
      && (o.r != 0 ==> var c := Contents(o.s, id); |c| == offset + |bytes| && c[offset..] == bytes)
  {
    hide Tree, Malloc, Backed, Poked, Slice;
    R.WriteData(s, a, e, id, offset, bytes);
    hide Inv, Write;
    assert bytes[..|bytes|] == bytes;
  }

  lemma {:induction false} NewNode(s: Fs, name: Name, isDir: bool)
    requires Add(s, name, isDir).r == 0
    ensures var s1, id := Add(s, name, isDir).s, |s.nodes|;
      && |s1.nodes| == id + 1 && id in s1.children && s1.heap == s.heap && s1.mem == s.mem
      && s1.nodes[id] == Node(Clipped(name), isDir, 0, 0, !isDir)
  {
    var s1 := Add(s, name, isDir).s;
    assert s1.children[|s.children|] == |s.nodes|;
    hide Find;
  }

  // ---------------------------------------------------------------- paths

  /** A path of slashes only leads to the root, and the empty path nowhere. */
  lemma {:induction false} ResolveRoot(s: Fs, path: seq<byte>)
    requires forall i :: 0 <= i < |path| ==> path[i] == '/' as int
    ensures Resolve(s, path) == if path == [] then -1 else 0
  {
    SkipIs(path, 0, |path|);
    assert Components(path, 0) == [];
  }

  /** A path with something behind a name and a slash leads nowhere: nothing lies below the root's children. */
  lemma {:induction false} ResolveDeeper(s: Fs, k: nat, name: Name, m: nat, rest: seq<byte>)
    requires Shape(s.nodes, s.children) && name != [] && SLASH !in name && m > 0 && rest != [] && rest[0] != SLASH
    ensures Resolve(s, Slashes(k) + name + Slashes(m) + rest) == -1
  {
    var path := Slashes(k) + name + Slashes(m) + rest;
    var q, n := k + |name|, k + |name| + m;
    assert path[k] == name[0] && name[0] in name;
    assert forall i :: k <= i < q ==> path[i] == name[i - k] && path[i] in name;
    assert forall i :: 0 <= i < k || q <= i < n ==> path[i] == SLASH;
    assert path[n] == rest[0];
    SkipIs(path, 0, k);
    NameEndIs(path, k, q);
    SkipIs(path, q, n);
    assert |Components(path, q)| >= 1;
    NothingDeeper(s, path);
  }
}
