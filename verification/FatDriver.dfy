/** The FAT16 driver: the code of fat.c on a device of sectors, proved against the abstract volume. */
module FatDriver {
  import opened Arithmetic
  import opened Bytes
  import opened FatTable
  import opened FatNames
  import opened FatNameBytes
  import opened FatVolume
  import opened FatDisk
  import opened FatTheorems
  import opened FatSteps

  /** `memcpy(dst + at, src, |src|)` */
  method MemCpy(dst: array<byte>, at: nat, src: seq<byte>)
    requires at + |src| <= dst.Length
    modifies dst
    ensures dst[..] == Patched(old(dst[..]), at, src)
  {
    var i := 0;
    PatchedNothing(dst[..], at);
    hide Patched;
    while i < |src|
      invariant i <= |src|
      invariant dst[..] == Patched(old(dst[..]), at, src[..i])
    {
      ghost var before := dst[..];
      PatchedStep(old(dst[..]), at, src, i);
      dst[at + i] := src[i];
      assert dst[..] == before[at + i := src[i]];
      i := i + 1;
    }
    assert src[..i] == src;
  }

  /** A read of more bytes than this overruns the buffer: see `ChunkIsRight`. */
  const MAX_READ: nat := 0xFFFF_FE00

  /** The next chunk of `fat_read_file`; the sum is 32 bits wide. */
  function Chunk32(read: nat, toRead: nat): nat {
    if (read + 512) % TWO32 > toRead && read <= toRead then toRead - read else 512
  }

  /** The chunk is cut at the wanted end exactly when the sum does not wrap, that is, below the last 512
      bytes of the address range. */
  lemma {:induction false} ChunkIsRight(read: nat, toRead: nat)
    requires read < toRead < TWO32
    ensures Chunk32(read, toRead) == Min(512, toRead - read) <==> read < MAX_READ
  {
  }

  /** With 256 bytes still wanted at the end of the address range, the whole sector is copied. */
  lemma {:induction false} ChunkOverruns()
    ensures Chunk32(0xFFFF_FE00, 0xFFFF_FF00) == 512 > 0xFFFF_FF00 - 0xFFFF_FE00
  {
  }

  /** `(int)n` */
  function SignedInt(n: nat): int {
    if n < 0x8000_0000 then n else n - TWO32
  }

  /** The signed number with the same 32 bits: the count itself below 2^31, and negative from there on. */
  lemma {:induction false} SignedIntIs(n: nat)
    requires n < TWO32
    ensures -0x8000_0000 <= SignedInt(n) <= 0x7FFF_FFFF && (SignedInt(n) - n) % 0x1_0000_0000 == 0
    ensures SignedInt(n) == n <==> n <= 0x7FFF_FFFF
  {
  }

  /** One sector of `fat_read_file`: a chunk of it goes behind what is there already. */
  method CopySector(buffer: array<byte>, sector: seq<byte>, read: nat, toRead: nat,
                    ghost was: seq<byte>, ghost start: nat, ghost bytes: seq<byte>)
    returns (read': nat)
    requires start <= read < toRead <= buffer.Length && toRead <= MAX_READ && |was| == buffer.Length && |sector| == 512
    requires read - start + 512 <= |bytes| && bytes[read - start..read - start + 512] == sector
    requires buffer[..] == Patched(was, start, bytes[..read - start])
    modifies buffer
    ensures read' == Min(read + 512, toRead) && buffer[..] == Patched(was, start, bytes[..read' - start])
  {
    hide Patched;
    ChunkIsRight(read, toRead);
    var chunk := Chunk32(read, toRead);
    TakeMore(bytes, sector, read - start, chunk);
    PatchedTwice(was, start, bytes[..read - start], sector[..chunk]);
    MemCpy(buffer, read, sector[..chunk]);
    read' := read + chunk;
  }

  /** Copies the displayed name out of a directory entry. */
  method RenderName(ent: seq<byte>) returns (name: seq<byte>)
    requires |ent| == 32
    ensures name == Render(ent[..11])
  {
    ghost var f := ent[..11];
    name := [];
    var j := 0;
    while j < 8
      invariant j <= 8 && name == f[..8][..j]
      invariant forall i :: 0 <= i < j ==> f[i] != SPACE
    {
      if ent[j] == SPACE { break; }
      name := name + [ent[j]];
      j := j + 1;
    }
    IndexUnique(f[..8], SPACE, j);
    if ent[8] != SPACE {
      name := name + [DOT];
      j := 8;
      while j < 11
        invariant 8 <= j <= 11 && name == BasePart(f) + [DOT] + f[8..][..j - 8]
        invariant forall i :: 8 <= i < j ==> f[i] != SPACE
      {
        if ent[j] == SPACE { break; }
        name := name + [ent[j]];
        j := j + 1;
      }
      IndexUnique(f[8..], SPACE, j - 8);
      assert name == BasePart(f) + ([DOT] + ExtPart(f));
    } else {
      assert name == BasePart(f) + [];
    }
    name := CString(name);
  }

  class Driver {
    var disk: seq<seq<byte>>
    var geo: Geometry
    var fatType: nat
    var files: seq<FileInfo>

    /** A mounted FAT16 volume whose root cache mirrors the directory on disk. */
    ghost predicate Valid()
      reads this
    {
      OnDisk(geo, disk) && files == Cache(View(geo, disk))
    }

    /** `fat_read_fat_entry` */
    method ReadFatEntry(cluster: nat) returns (value: nat)
      requires OnDisk(geo, disk) && cluster < 256 * geo.fatSize
      ensures value == View(geo, disk).table[cluster]
    {
      hide View;
      RegionsApart(geo);
      EntryAddress(cluster);
      ViewEntry(geo, disk, cluster);
      var offset := cluster * 2;
      var sector := disk[geo.reserved + offset / 512];
      value := U16(sector, offset % 512);
    }

    /** `fat_write_fat_entry` */
    method WriteFatEntry(cluster: nat, value: nat)
      requires OnDisk(geo, disk) && cluster < 256 * geo.fatSize && value < 0x1_0000
      modifies this`disk
      ensures OnDisk(geo, disk) && SameOutside(geo, old(disk), disk)
      ensures View(geo, disk) == old(View(geo, disk)).(table := old(View(geo, disk)).table[cluster := value])
    {
      hide View;
      RegionsApart(geo);
      EntryAddress(cluster);
      PatchEntry(geo, disk, cluster, value);
      var offset := cluster * 2;
      var lba := geo.reserved + offset / 512;
      var sector := disk[lba];
      sector := PutU16(sector, offset % 512, value);
      disk := disk[lba := sector];
    }

    /** `fat_free_chain`: stops on every table, cyclic or cross-linked, and zeroes exactly the clusters
        reachable from the start. */
    method FreeChain(start: nat)
      requires OnDisk(geo, disk)
      requires LinksInside(View(geo, disk).table, start)
      modifies this`disk
      ensures OnDisk(geo, disk) && SameOutside(geo, old(disk), disk)
      ensures View(geo, disk) == old(View(geo, disk)).(table := Freed(old(View(geo, disk)).table, start))
    {
      hide View, Freed, Reachable, LinksInside;
      var cluster: nat := start;
      ghost var v0 := View(geo, disk);
      ghost var t := v0.table;
      while 2 <= cluster < 0xFFF8
        invariant OnDisk(geo, disk) && SameOutside(geo, old(disk), disk)
        invariant |t| == |v0.table| && View(geo, disk) == v0.(table := t)
        invariant LinksInside(t, cluster)
        invariant Freed(t, cluster) == Freed(v0.table, start)
        decreases |InUse(t)|, if Link(cluster) then 1 else 0
      {
        StartInside(t, cluster);
        var next := ReadFatEntry(cluster);
        WriteFatEntry(cluster, 0);
        FreedStep(t, cluster);
        LinksInsideStep(t, cluster);
        InUseShrinks(t, cluster);
        t := t[cluster := 0];
        cluster := next;
      }
      FreedNothing(t, cluster);
    }

    /** `fat_find_free_run`: the lowest run of free clusters in [2, total_clusters). A count of zero
        asks for one cluster. */
    method FindFreeRun(count: nat) returns (start: nat)
      requires OnDisk(geo, disk)
      ensures IsFirstRun(View(geo, disk).table, geo.clusters, RunLength(count), start)
    {
      hide View;
      var run := 0;
      start := 2;
      var c := 2;
      ghost var t := View(geo, disk).table;
      while c < geo.clusters
        invariant 2 <= c <= geo.clusters && run <= c - 2 && (run > 0 ==> start == c - run && run < count)
        invariant forall i :: c - run <= i < c ==> t[i] == 0
        invariant c - run > 2 ==> t[c - run - 1] != 0
        invariant forall b :: 2 <= b < c - run ==> b + RunLength(count) > geo.clusters || !RunFree(t, b, RunLength(count))
      {
        var e := ReadFatEntry(c);
        if e == 0 {
          if run == 0 { start := c; }
          run := run + 1;
          if run >= count {
            assert RunFree(t, start, RunLength(count));
            return;
          }
        } else {
          forall b | c - run <= b < c + 1
            ensures b + RunLength(count) > geo.clusters || !RunFree(t, b, RunLength(count))
          {
            assert b <= c < b + RunLength(count);
          }
          run := 0;
        }
        c := c + 1;
      }
      start := 0;
    }

    /** The inner loop of `fat_find_root_entry`: one directory sector. */
    method ScanSector(name: seq<byte>, i: nat, freeSector0: nat, freeOffset0: nat)
      returns (hit: bool, offset: nat, freeSector: nat, freeOffset: nat)
      requires OnDisk(geo, disk) && |name| == 11 && i < geo.rootSectors
      requires Scanned(geo, View(geo, disk), name, 16 * i, freeSector0, freeOffset0)
      ensures !hit ==> Scanned(geo, View(geo, disk), name, 16 * i + 16, freeSector, freeOffset)
      ensures hit ==> offset < 512 && offset % 32 == 0 && Find(View(geo, disk), name) == Existing(16 * i + offset / 32)
    {
      hide View, Shape, Scanned, NoEnd, Find, SlotsOk;
      ghost var v := View(geo, disk);
      RegionsApart(geo);
      freeSector, freeOffset := freeSector0, freeOffset0;
      var lba := RootStart(geo) + i;
      var buf := disk[lba];
      var e := 0;
      ViewDirEntry(geo, disk, i, 0);
      assert lba != NONE;
      hide OnDisk, RootStart;
      NoEndYet(geo, v, i);
      while e < 16
        invariant e <= 16 && Scanned(geo, v, name, 16 * i + e, freeSector, freeOffset) && NoEnd(geo, v, i, e)
      {
        var ent := buf[e * 32..e * 32 + 32];
        ViewDirEntry(geo, disk, i, e);
        ScannedStep(geo, v, name, i, e, ent, freeSector, freeOffset);
        if ent[0] == 0x00 || ent[0] == 0xE5 {
          if freeSector == NONE {
            freeSector := lba;
            freeOffset := e * 32;
          }
          if ent[0] == 0x00 {
            ScannedStop(geo, v, name, i, e, freeSector, freeOffset);
            return false, 0, freeSector, freeOffset;
          }
        } else if ent[11] != 0x0F && ent[..11] == name {
          return true, e * 32, freeSector, freeOffset;
        }
        e := e + 1;
      }
      return false, 0, freeSector, freeOffset;
    }

    /** `fat_find_root_entry` with the sector number and byte offset it reports. */
    method FindRootEntry(name: seq<byte>) returns (found: int, sector: nat, offset: nat)
      requires OnDisk(geo, disk) && |name| == 11
      ensures found == (match Find(View(geo, disk), name) case Existing(_) => 1 case Fresh(_) => 0 case Full => -1)
      ensures found >= 0 ==> InSector(geo, Find(View(geo, disk), name).k, sector, offset)
    {
      ghost var v := View(geo, disk);
      hide View, Find, Scanned, SlotsOk, InSector, RootStart;
      var freeSector: nat, freeOffset: nat := NONE, NONE;
      ScannedNothing(geo, v, name);
      var i := 0;
      while i < geo.rootSectors
        invariant i <= geo.rootSectors && Scanned(geo, v, name, 16 * i, freeSector, freeOffset)
      {
        var hit, at, fs, fo := ScanSector(name, i, freeSector, freeOffset);
        if hit {
          InSectorOf(geo, i, at);
          return 1, RootStart(geo) + i, at;
        }
        freeSector, freeOffset := fs, fo;
        i := i + 1;
      }
      ghost var t := ScannedAll(geo, v, name, freeSector, freeOffset);
      if freeSector != NONE {
        return 0, freeSector, freeOffset;
      }
      return -1, 0, 0;
    }

    /** `fat_add_file` */
    method AddFile(name: seq<byte>, size: nat, cluster: nat)
      modifies this`files
      ensures files == if |old(files)| >= CACHE_SIZE then old(files) else old(files) + [FileInfo(FirstOf(name, 12), size, cluster)]
    {
      if |files| >= CACHE_SIZE {
        return;
      }
      var len := |name|;
      if len > 12 { len := 12; }
      assert name[..len] == FirstOf(name, 12);
      files := files + [FileInfo(name[..len], size, cluster)];
    }

    /** The body of the loop of `fat_parse_root_dir` for an entry that is not the end marker. */
    method ParseEntry(ent: seq<byte>, ghost v: Volume, ghost k: nat)
      requires SlotsOk(v)
      requires k < |v.slots| && ent == v.slots[k] && Reached(v, k) && ent[0] != 0x00
      requires files == FirstOf(Listing(v, k), CACHE_SIZE)
      modifies this`files
      ensures files == FirstOf(Listing(v, k + 1), CACHE_SIZE)
    {
      if ent[0] == 0xE5 || ent[11] == 0x0F || ent[11] / 8 % 2 == 1 {
        assert Listing(v, k + 1) == Listing(v, k) + [];
        return;
      }
      var name := RenderName(ent);
      assert FirstOf(name, 12) == name;
      AddFile(name, U32(ent, 28), U16(ent, 20) * 0x1_0000 + U16(ent, 26));
      FirstOfAppend(Listing(v, k), Info(ent), CACHE_SIZE);
      assert Listing(v, k + 1) == Listing(v, k) + [Info(ent)];
    }

    /** `fat_parse_root_dir` on directory sector `i`. */
    method ParseRootDir(sector: seq<byte>, ghost i: nat)
      requires OnDisk(geo, disk) && i < geo.rootSectors
      requires RootStart(geo) + i < |disk| && sector == disk[RootStart(geo) + i]
      requires files == FirstOf(Listing(View(geo, disk), 16 * i), CACHE_SIZE)
      modifies this`files
      ensures files == FirstOf(Listing(View(geo, disk), 16 * i + 16), CACHE_SIZE)
    {
      hide View, Listing, SlotsOk, NoEnd;
      ghost var v := View(geo, disk);
      NoEndYet(geo, v, i);
      var e := 0;
      while e < 16
        invariant e <= 16
        invariant NoEnd(geo, v, i, e) && files == FirstOf(Listing(v, 16 * i + e), CACHE_SIZE)
      {
        ghost var k := 16 * i + e;
        var ent := sector[e * 32..e * 32 + 32];
        ViewDirEntry(geo, disk, i, e);
        assert ent == v.slots[k];
        NoEndStep(geo, v, i, e);
        if ent[0] == 0x00 {
          SlotInSector(i, e);
          ListingStops(v, k, 16 * i + 16);
          return;
        }
        ParseEntry(ent, v, k);
        e := e + 1;
      }
    }

    /** `fat_refresh_root_cache` */
    method RefreshRootCache()
      requires OnDisk(geo, disk)
      modifies this`files
      ensures Valid()
    {
      hide View, Listing, OnDisk, RootStart, Shape, SlotsOk, FirstOf;
      files := [];
      ghost var v := View(geo, disk);
      RootInside(geo, disk);
      ListedNone(v);
      var i := 0;
      while i < geo.rootSectors
        invariant i <= geo.rootSectors
        invariant files == FirstOf(Listing(v, 16 * i), CACHE_SIZE)
      {
        ParseRootDir(disk[RootStart(geo) + i], i);
        i := i + 1;
      }
    }

    /** `fat_init` for a device that starts with a boot sector of 512-byte sectors. The FAT32 root
        walk is not part of this model. */
    method Init()
      requires |disk| > 0 && forall l :: 0 <= l < |disk| ==> |disk[l]| == 512
      requires U16(disk[0], 11) == 512 && disk[0][13] >= 1 && BootOverhead(disk[0]) <= BootTotal(disk[0]) <= |disk|
      requires FatType(BootGeometry(disk[0]).clusters) == 16 ==> ValidGeometry(BootGeometry(disk[0]))
      modifies this
      ensures disk == old(disk) && geo == BootGeometry(disk[0])
      ensures fatType == FatType(geo.clusters)
      ensures fatType == 16 ==> Valid()
      ensures fatType == 0 ==> files == old(files)
    {
      BootOnDisk(disk);
      hide BootGeometry, BootTotal, BootOverhead, OnDisk, U16, Cache, View;
      geo := BootGeometry(disk[0]);
      fatType := FatType(geo.clusters);
      if fatType == 0 {
        return;
      }
      files := [];
      if fatType == 16 {
        RefreshRootCache();
      }
    }

    /** `fat_read_cluster_sector` */
    method ReadClusterSector(cluster: nat, s: nat) returns (sector: seq<byte>)
      requires OnDisk(geo, disk) && 2 <= cluster < geo.clusters + 2 && s < geo.spc
      ensures |sector| == 512 && 512 * s + 512 <= ClusterSize(geo) == |ClusterBytes(geo, View(geo, disk).data, cluster)|
      ensures ClusterBytes(geo, View(geo, disk).data, cluster)[512 * s..512 * s + 512] == sector
    {
      hide View, Flatten, ClusterBytes, SlotsOk;
      ghost var data, base := View(geo, disk).data, ClusterBase(geo, cluster);
      ClusterInside(geo, cluster);
      ClusterBytesLength(geo, data, cluster);
      ClusterBytesAre(geo, data, cluster);
      ViewData(geo, disk, base + s);
      FlattenAt(data[base..base + geo.spc], s);
      sector := disk[ClusterToLba(geo, cluster) + s];
    }

    /** The inner loop of `fat_read_file`: the sectors of one cluster, as far as they are wanted. */
    method ReadCluster(cluster: nat, buffer: array<byte>, start: nat, toRead: nat) returns (read: nat)
      requires OnDisk(geo, disk) && 2 <= cluster < geo.clusters + 2 && start < toRead <= buffer.Length && toRead <= MAX_READ
      modifies buffer
      ensures |ClusterBytes(geo, View(geo, disk).data, cluster)| == ClusterSize(geo)
      ensures read == Min(start + ClusterSize(geo), toRead)
      ensures buffer[..] == Patched(old(buffer[..]), start, ClusterBytes(geo, View(geo, disk).data, cluster)[..read - start])
    {
      ghost var was, bytes := buffer[..], ClusterBytes(geo, View(geo, disk).data, cluster);
      ClusterBytesLength(geo, View(geo, disk).data, cluster);
      hide View, Patched, ClusterBytes, OnDisk, Shape;
      PatchedNothing(was, start);
      assert bytes[..0] == [];
      read := start;
      var s := 0;
      while s < geo.spc && read < toRead
        invariant s <= geo.spc && start <= read <= toRead
        invariant read == Min(start + 512 * s, toRead)
        invariant buffer[..] == Patched(was, start, bytes[..read - start])
      {
        var sector := ReadClusterSector(cluster, s);
        read := CopySector(buffer, sector, read, toRead, was, start, bytes);
        s := s + 1;
      }
    }

    /** `fat_read_file`: -1 for a zero limit or an unknown name; otherwise the bytes along the chain go
        to the front of the buffer, and their number is returned as a signed 32-bit integer. */
    method ReadFile(name: seq<byte>, buffer: array<byte>, max: nat) returns (r: int)
      requires OnDisk(geo, disk) && max <= buffer.Length
      requires var i := Lookup(files, name);
        i < |files| ==>
          Min(files[i].size, max) <= MAX_READ && Readable(geo, View(geo, disk), files[i].cluster, Min(files[i].size, max))
      modifies buffer
      ensures r == -1 <==> max == 0 || Lookup(files, name) == |files|
      ensures r == -1 ==> buffer[..] == old(buffer[..])
      ensures r != -1 ==>
        var fi := files[Lookup(files, name)];
        var bytes := ReadFrom(geo, View(geo, disk), fi.cluster, Min(fi.size, max));
        |bytes| <= max && r == SignedInt(|bytes|) && buffer[..] == Patched(old(buffer[..]), 0, bytes)
    {
      hide View, Readable, ReadFrom, Patched;
      if max == 0 {
        return -1;
      }
      var i := 0;
      while i < |files| && files[i].name != name
        invariant i <= |files| && forall j :: 0 <= j < i ==> files[j].name != name
      {
        i := i + 1;
      }
      LookupIsFirst(files, name, i);
      if i == |files| {
        assert Lookup(files, name) == i;
        return -1;
      }
      var read := CopyChain(files[i].cluster, buffer, Min(files[i].size, max));
      return SignedInt(read);
    }

    /** One cluster of the chain loop of `fat_read_file`: copy it, then follow its link. */
    method CopyCluster(cluster: nat, buffer: array<byte>, start: nat, toRead: nat, ghost was: seq<byte>, ghost got: seq<byte>)
      returns (read: nat, next: nat, done: bool, ghost got': seq<byte>)
      requires OnDisk(geo, disk) && toRead <= buffer.Length && toRead <= MAX_READ && 2 <= cluster < 0x0FFF_FFF8
      requires start == |got| < toRead && |was| == buffer.Length && buffer[..] == Patched(was, 0, got)
      requires Shape(geo, View(geo, disk)) && Readable(geo, View(geo, disk), cluster, toRead - start)
      modifies buffer
      ensures start < read == |got'| <= toRead && buffer[..] == Patched(was, 0, got')
      ensures !done ==> Readable(geo, View(geo, disk), next, toRead - read)
      ensures got + ReadFrom(geo, View(geo, disk), cluster, toRead - start)
        == got' + Rest(geo, View(geo, disk), next, toRead - read, done)
    {
      hide View, ClusterBytes, Patched, ReadFrom, Readable, Rest, Shape;
      ghost var v := View(geo, disk);
      ghost var bytes := ReadStep(geo, v, cluster, toRead - start, got);
      assert cluster < 256 * geo.fatSize;
      hide OnDisk;
      read := ReadCluster(cluster, buffer, start, toRead);
      PatchedTwice(was, 0, got, bytes);
      got' := got + bytes;
      next := ReadFatEntry(cluster);
      done := next >= 0xFFF8;
    }

    /** The chain loop of `fat_read_file`. */
    method CopyChain(first: nat, buffer: array<byte>, toRead: nat) returns (read: nat)
      requires OnDisk(geo, disk) && toRead <= buffer.Length && toRead <= MAX_READ
      requires Readable(geo, View(geo, disk), first, toRead)
      modifies buffer
      ensures var bytes := ReadFrom(geo, View(geo, disk), first, toRead);
        read == |bytes| <= toRead && buffer[..] == Patched(old(buffer[..]), 0, bytes)
    {
      assert Shape(geo, View(geo, disk));
      hide View, ClusterBytes, Patched, ReadFrom;
      var cluster: nat, done := first, false;
      read := 0;
      ghost var v, was := View(geo, disk), buffer[..];
      ghost var all, got: seq<byte> := ReadFrom(geo, v, first, toRead), [];
      PatchedNothing(was, 0);
      while !done && 2 <= cluster < 0x0FFF_FFF8 && read < toRead
        invariant read == |got| <= toRead && (!done ==> Readable(geo, v, cluster, toRead - read))
        invariant buffer[..] == Patched(was, 0, got)
        invariant all == got + Rest(geo, v, cluster, toRead - read, done)
        decreases toRead - read, !done
      {
        read, cluster, done, got := CopyCluster(cluster, buffer, read, toRead, was, got);
      }
      if !done {
        ReadEnds(geo, v, cluster, toRead - read);
      }
      assert got + [] == got;
    }

    /** `fat_write_file`: the volume afterwards is exactly the one `Write` describes, nothing outside
        the first FAT, the root directory and the data clusters changes, and the cache stays coherent. */
    method WriteFile(name: seq<byte>, src: seq<byte>) returns (r: int)
      requires fatType == 16 ==> Valid() && (name != [] ==> Replaceable(View(geo, disk), Format(name)))
      requires IsCString(name) && |src| < TWO32
      modifies this`disk, this`files
      ensures fatType != 16 || name == [] ==> r == -1 && disk == old(disk) && files == old(files)
      ensures fatType == 16 && name != [] ==>
        Valid() && SameOutside(geo, old(disk), disk) && Wrote(geo, old(disk), disk, Format(name), src, r)
    {
      hide View, Find, PutSectors, LinkRun, Freed, Cache, Wrote, TableAfterFree, Format, SameOutside, FirstRun;
      SameOutsideItself(geo, disk);
      if fatType != 16 {
        return -1;
      }
      var ok, fatName := FormatName(name);
      if !ok {
        return -1;
      }
      ghost var d, v := disk, View(geo, disk);
      var found, sector, offset := FindRootEntry(fatName);
      ghost var t := Find(v, fatName);
      if found < 0 {
        WroteNothing(geo, d, fatName, src);
        return -1;
      }
      r := ReplaceFile(fatName, src, found, sector, offset, t);
    }

    /** The rest of `fat_write_file`, once the slot is known. */
    method ReplaceFile(fatName: seq<byte>, src: seq<byte>, found: int, sector: nat, offset: nat, ghost t: Target) returns (r: int)
      requires Valid() && |fatName| == 11 && |src| < TWO32
      requires Replaceable(View(geo, disk), fatName)
      requires t == Find(View(geo, disk), fatName) && !t.Full? && InSector(geo, t.k, sector, offset)
      requires found == if t.Existing? then 1 else 0
      modifies this`disk, this`files
      ensures Valid() && SameOutside(geo, old(disk), disk) && Wrote(geo, old(disk), disk, fatName, src, r)
    {
      hide View, Find, PutSectors, LinkRun, Freed, Cache, Wrote, TableAfterFree, SameOutside, FirstRun, Listing;
      ghost var d, v := disk, View(geo, disk);
      var dirSector := ReleaseOld(sector, offset, found, t);
      ghost var d1 := disk;
      SameOutsideItself(geo, d1);
      var first := 0;
      if |src| > 0 {
        first := StoreFile(src);
        if first == 0 {
          WroteNoSpace(geo, d, disk, fatName, src);
          CacheOfSlots(v, View(geo, disk));
          return -1;
        }
      }
      SameOutsideTwice(geo, d, d1, disk);
      FinishWrite(sector, offset, dirSector, fatName, first, src, d, t);
      return 0;
    }

    /** `fat_write_file` up to the release of the old chain; the directory sector was read before. */
    method ReleaseOld(sector: nat, offset: nat, found: int, ghost t: Target) returns (dirSector: seq<byte>)
      requires OnDisk(geo, disk) && !t.Full? && t.k < 16 * geo.rootSectors && InSector(geo, t.k, sector, offset)
      requires found == if t.Existing? then 1 else 0
      requires t.Existing? ==> LinksInside(View(geo, disk).table, FirstCluster(View(geo, disk).slots[t.k]))
      modifies this`disk
      ensures OnDisk(geo, disk) && SameOutside(geo, old(disk), disk) && sector < |disk| && dirSector == old(disk)[sector]
      ensures View(geo, disk) == old(View(geo, disk)).(table := TableAfterFree(old(View(geo, disk)), t))
    {
      hide View, Freed, TableAfterFree, SameOutside, LinksInside;
      SameOutsideItself(geo, disk);
      ViewSlot(geo, disk, t.k);
      TableAfterFreeCases(View(geo, disk), t);
      dirSector := disk[sector];
      var oldCluster := U16(dirSector[offset..offset + 32], 26);
      if found == 1 && oldCluster >= 2 {
        FreeChain(oldCluster);
      }
    }

    /** The end of `fat_write_file`: the entry goes to the directory, and the cache is read again. */
    method FinishWrite(sector: nat, offset: nat, dirSector: seq<byte>, fatName: seq<byte>, first: nat, src: seq<byte>,
                       ghost d: seq<seq<byte>>, ghost t: Target)
      requires OnDisk(geo, disk) && OnDisk(geo, d) && |fatName| == 11 && |src| < TWO32 && SameOutside(geo, d, disk)
      requires t == Find(View(geo, d), fatName) && !t.Full? && InSector(geo, t.k, sector, offset)
      requires sector < |d| && dirSector == d[sector] && first < 0x1_0000 && (src == [] ==> first == 0)
      requires src == [] ==> View(geo, disk) == View(geo, d).(table := TableAfterFree(View(geo, d), t))
      requires src != [] ==>
        var v, n := View(geo, d), Needed32(geo, |src|);
        && first != 0 && first == RunFor(geo, v, t, |src|)
        && View(geo, disk) == Volume(LinkRun(TableAfterFree(v, t), first, n), v.slots,
                                     PutSectors(v.data, ClusterBase(geo, first), src, Written(geo, |src|, n)))
      modifies this`disk, this`files
      ensures Valid() && SameOutside(geo, d, disk) && Wrote(geo, d, disk, fatName, src, 0)
    {
      hide View, Find, PutSectors, LinkRun, Freed, Cache, Wrote, TableAfterFree, SameOutside, FirstRun, Listing, RunFor;
      ghost var w, d2 := View(geo, disk), disk;
      SameSectors(geo, d, disk, t.k / 16);
      WriteEntry(sector, offset, dirSector, fatName, first, |src|, t.k);
      SameOutsideTwice(geo, d, d2, disk);
      WroteFile(geo, d, disk, fatName, src, w);
      RefreshRootCache();
    }


    /** The middle of `fat_write_file`: find room for a non-empty buffer, link it and fill it. */
    method StoreFile(src: seq<byte>) returns (first: nat)
      requires OnDisk(geo, disk) && 0 < |src| < TWO32
      modifies this`disk
      ensures OnDisk(geo, disk) && SameOutside(geo, old(disk), disk) && Shape(geo, View(geo, disk))
      ensures first == FirstRun(old(View(geo, disk)).table, geo.clusters, RunLength(Needed32(geo, |src|))) < geo.clusters
      ensures first == 0 ==> disk == old(disk)
      ensures first != 0 ==>
        var v, n := old(View(geo, disk)), Needed32(geo, |src|);
        View(geo, disk) == Volume(LinkRun(v.table, first, n), v.slots,
                                  PutSectors(v.data, ClusterBase(geo, first), src, Written(geo, |src|, n)))
    {
      hide View, PutSectors, LinkRun, FirstRun;
      ghost var v := View(geo, disk);
      var clusterSize := 512 * geo.spc;
      var sum: nat := (|src| + clusterSize - 1) % 0x1_0000_0000;
      var needed := Quotient(sum, clusterSize);
      assert needed == Needed32(geo, |src|);
      first := FindFreeRun(needed);
      FirstRunUnique(v.table, geo.clusters, RunLength(needed), first);
      if first == 0 {
        return;
      }
      assert RunFree(v.table, first, RunLength(needed));
      LinkClusters(first, needed);
      LinkedRunLinks(v.table, first, needed);
      StoreData(first, needed, src);
    }

    /** The end of `fat_write_file`: the entry is patched inside the directory sector read before. */
    method WriteEntry(sector: nat, offset: nat, dirSector: seq<byte>, fatName: seq<byte>, first: nat, size: nat, ghost k: nat)
      requires OnDisk(geo, disk) && k < 16 * geo.rootSectors && InSector(geo, k, sector, offset)
      requires sector < |disk| && dirSector == disk[sector]
      requires |fatName| == 11 && first < 0x1_0000 && size < TWO32
      modifies this`disk
      ensures OnDisk(geo, disk) && SameOutside(geo, old(disk), disk)
      ensures View(geo, disk) == old(View(geo, disk)).(slots :=
        old(View(geo, disk)).slots[k := PutSlot(old(View(geo, disk)).slots[k], fatName, first, size)])
    {
      hide View;
      ViewSlot(geo, disk, k);
      var ent := dirSector[offset..offset + 32];
      assert ent == View(geo, disk).slots[k];
      PatchSlot(geo, disk, k, PutSlot(ent, fatName, first, size));
      ent := fatName + [0x20] + ent[12..];
      ent := PutU16(ent, 20, 0);
      ent := PutU16(ent, 26, first);
      ent := PutU32(ent, 28, size);
      disk := disk[sector := Splice(dirSector, offset, ent)];
    }

    /** The loop of `fat_write_file` that links the new chain. */
    method LinkClusters(first: nat, needed: nat)
      requires OnDisk(geo, disk) && 2 <= first && first + needed <= geo.clusters
      modifies this`disk
      ensures OnDisk(geo, disk) && SameOutside(geo, old(disk), disk)
      ensures View(geo, disk) == old(View(geo, disk)).(table := LinkRun(old(View(geo, disk)).table, first, needed))
    {
      hide View, PartlyLinked, LinkRun;
      ghost var v := View(geo, disk);
      PartlyLinkedEnds(v.table, first, needed);
      var i := 0;
      while i < needed
        invariant i <= needed
        invariant OnDisk(geo, disk) && SameOutside(geo, old(disk), disk)
        invariant View(geo, disk).slots == v.slots && View(geo, disk).data == v.data
        invariant View(geo, disk).table == PartlyLinked(v.table, first, needed, i)
      {
        var cur := first + i;
        var val := if i + 1 == needed then 0xFFFF else cur + 1;
        PartlyLinkedStep(v.table, first, needed, i);
        WriteFatEntry(cur, val);
        i := i + 1;
      }
    }

    /** One sector of the data loop of `fat_write_file`, the last one padded with zeroes. */
    method StoreSector(lba: nat, src: seq<byte>, before: nat, ghost l: nat, ghost j: nat) returns (remaining: nat)
      requires OnDisk(geo, disk) && j < SectorCount(|src|) && before == |src| - 512 * j
      requires lba == DataStart(geo) + l && l < geo.clusters * geo.spc
      modifies this`disk
      ensures OnDisk(geo, disk) && SameOutside(geo, old(disk), disk)
      ensures View(geo, disk) == old(View(geo, disk)).(data := old(View(geo, disk)).data[l := SectorOf(src, j)])
      ensures remaining == if before < 512 then 0 else before - 512
    {
      hide View, SameOutside, SectorOf;
      PatchData(geo, disk, l, SectorOf(src, j));
      assert lba < |disk|;
      hide OnDisk;
      var at := |src| - before;
      var chunk := 512;
      if before < chunk {
        var buf: seq<byte> := seq(512, _ => 0);
        buf := src[at..] + buf[before..];
        LastSector(src, j, buf);
        disk := disk[lba := buf];
        remaining := 0;
      } else {
        FullSector(src, j);
        disk := disk[lba := src[at..at + chunk]];
        remaining := before - chunk;
      }
    }

    /** The inner data loop of `fat_write_file`: the sectors of one cluster, starting at sector `lba`. */
    method StoreCluster(lba: nat, src: seq<byte>, before: nat, ghost v: Volume, ghost base: nat, ghost m: nat)
      returns (remaining: nat)
      requires OnDisk(geo, disk) && Shape(geo, v) && m < SectorCount(|src|) && before == |src| - 512 * m
      requires View(geo, disk) == v.(data := PutSectors(v.data, base, src, m))
      requires lba == DataStart(geo) + base + m && base + m + geo.spc <= geo.clusters * geo.spc
      modifies this`disk
      ensures OnDisk(geo, disk) && SameOutside(geo, old(disk), disk)
      ensures var m' := Min(SectorCount(|src|), m + geo.spc);
        && View(geo, disk) == v.(data := PutSectors(v.data, base, src, m'))
        && remaining == (if m' == SectorCount(|src|) then 0 else |src| - 512 * m')
    {
      hide View, PutSectors, SameOutside, SectorOf;
      SameOutsideItself(geo, disk);
      remaining := before;
      var s := 0;
      while s < geo.spc
        invariant s <= geo.spc && OnDisk(geo, disk) && SameOutside(geo, old(disk), disk)
        invariant m + s < SectorCount(|src|) && remaining == |src| - 512 * (m + s)
        invariant View(geo, disk) == v.(data := PutSectors(v.data, base, src, m + s))
      {
        ghost var was := disk;
        PutSectorsStep(v.data, base, src, m + s);
        remaining := StoreSector(lba + s, src, remaining, base + m + s, m + s);
        SameOutsideTwice(geo, old(disk), was, disk);
        if remaining == 0 { break; }
        s := s + 1;
      }
    }

    /** The loop of `fat_write_file` that fills the clusters of the new chain. */
    method StoreData(first: nat, needed: nat, src: seq<byte>)
      requires OnDisk(geo, disk) && 0 < |src| < TWO32 && needed == Needed32(geo, |src|)
      requires 2 <= first && first + RunLength(needed) <= geo.clusters
      requires RunLinks(View(geo, disk).table, first, needed)
      modifies this`disk
      ensures OnDisk(geo, disk) && SameOutside(geo, old(disk), disk)
      ensures View(geo, disk) == old(View(geo, disk)).(data :=
        PutSectors(old(View(geo, disk)).data, ClusterBase(geo, first), src, Written(geo, |src|, needed)))
    {
      hide View, PutSectors;
      ghost var v, base, total := View(geo, disk), ClusterBase(geo, first), SectorCount(|src|);
      var remaining: nat, cluster: nat := |src|, first;
      ghost var i: nat, m: nat := 0, 0;
      PutNoSectors(v.data, base, src);
      while remaining > 0 && 2 <= cluster < 0xFFF8
        invariant OnDisk(geo, disk) && SameOutside(geo, old(disk), disk)
        invariant i <= RunLength(needed) && m <= total
        invariant View(geo, disk) == v.(data := PutSectors(v.data, base, src, m))
        invariant if remaining > 0 then m == i * geo.spc && remaining == |src| - 512 * m else m == total <= i * geo.spc
        invariant remaining > 0 ==> if i < RunLength(needed) then cluster == first + i else !Link(cluster)
        decreases remaining
      {
        RunStep(geo, first, i, RunLength(needed));
        remaining := StoreCluster(ClusterToLba(geo, cluster), src, remaining, v, base, m);
        m := Min(total, m + geo.spc);
        cluster := ReadFatEntry(cluster);
        i := i + 1;
      }
      WrittenAll(geo, |src|, needed, i, m, remaining);
    }
  }

  /** `fat_write_file` and then `fat_read_file` on the driver, whatever state the volume is in: what was
      written, or of a wrapped size one cluster of it, is at the front of the buffer, and nothing else in
      the buffer has changed. */
  method WriteThenRead(d: Driver, name: seq<byte>, shown: seq<byte>, src: seq<byte>, buffer: array<byte>, max: nat)
    returns (w: int, r: int)
    requires d.fatType == 16 && d.Valid() && IsCString(name) && ValidName(name) && name != [] && |src| < TWO32
    requires Capitals(name, shown)
    requires Replaceable(View(d.geo, d.disk), Format(name))
    requires WillBeListed(View(d.geo, d.disk), Format(name), TargetSlot(View(d.geo, d.disk), Format(name)))
    requires 0 < max <= buffer.Length && Min(|src|, max) <= MAX_READ
    modifies d`disk, d`files, buffer
    ensures w == 0 || w == -1
    ensures w != 0 ==> r == 0 && buffer[..] == old(buffer[..])
    ensures w == 0 ==>
      var n := ReadBack(d.geo, |src|, max);
      n <= |src| && n <= max && r == SignedInt(n) && buffer[..] == Patched(old(buffer[..]), 0, src[..n])
  {
    hide View, Cache, Readable, ReadFrom, Patched, WillBeListed, Format, Write, Replaceable, Wraps;
    ghost var v := View(d.geo, d.disk);
    w := d.WriteFile(name, src);
    r := 0;
    WriteShape(d.geo, v, Format(name), src);
    if w == 0 {
      RoundTripByName(d.geo, v, name, shown, src, max);
      r := d.ReadFile(shown, buffer, max);
    }
  }
}
