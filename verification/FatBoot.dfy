/** The boot sector as a record: what `fat_init` computes, in terms of the fields of `struct fat_bpb` and not
    of the functions that read them. */
module FatBoot {
  import opened Arithmetic
  import opened Bytes
  import opened FatDisk
  import opened FatSteps

  /** `struct fat_bpb`, as far as the 32-bit FAT size; `rest` is what follows in the sector. */
  datatype Bpb = Bpb(jmp: seq<byte>, oem: seq<byte>, bytesPerSector: nat, sectorsPerCluster: byte, reserved: nat,
                     numFats: byte, rootEntries: nat, total16: nat, media: byte, fatSize16: nat,
                     sectorsPerTrack: nat, heads: nat, hidden: nat, total32: nat, fatSize32: nat, rest: seq<byte>)

  /** Every field has the width of its C type. */
  predicate Fits(b: Bpb) {
    && |b.jmp| == 3 && |b.oem| == 8 && |b.rest| == 472
    && b.bytesPerSector < 0x1_0000 && b.reserved < 0x1_0000 && b.rootEntries < 0x1_0000 && b.total16 < 0x1_0000
    && b.fatSize16 < 0x1_0000 && b.sectorsPerTrack < 0x1_0000 && b.heads < 0x1_0000
    && b.hidden < TWO32 && b.total32 < TWO32 && b.fatSize32 < TWO32
  }

  /** The fields up to the root entries, one after the other without gaps. */
  function Front(b: Bpb): (r: seq<byte>)
    requires Fits(b)
    ensures |r| == 19
  {
    b.jmp + b.oem + Two(b.bytesPerSector) + [b.sectorsPerCluster] + Two(b.reserved) + [b.numFats] + Two(b.rootEntries)
  }

  function Back(b: Bpb): (r: seq<byte>)
    requires Fits(b)
    ensures |r| == 21
  {
    Two(b.total16) + [b.media] + Two(b.fatSize16) + Two(b.sectorsPerTrack) + Two(b.heads)
    + Four(b.hidden) + Four(b.total32) + Four(b.fatSize32)
  }

  /** The sector with these fields. */
  function Packed(b: Bpb): (s: seq<byte>)
    requires Fits(b)
    ensures |s| == 512
  {
    Front(b) + Back(b) + b.rest
  }

  lemma {:induction false} PackedFront(b: Bpb)
    requires Fits(b)
    ensures var s := Packed(b);
      && U16(s, 11) == b.bytesPerSector && s[13] == b.sectorsPerCluster && U16(s, 14) == b.reserved
      && s[16] == b.numFats && U16(s, 17) == b.rootEntries
  {
    var s, f := Packed(b), Front(b);
    hide Two, U16;
    assert s[..19] == f;
    assert s[11..13] == f[11..13] == Two(b.bytesPerSector);
    assert s[14..16] == f[14..16] == Two(b.reserved);
    assert s[17..19] == f[17..19] == Two(b.rootEntries);
    assert s[13] == f[13] && s[16] == f[16];
    TwoReads(s, 11, b.bytesPerSector);
    TwoReads(s, 14, b.reserved);
    TwoReads(s, 17, b.rootEntries);
  }

  lemma {:induction false} PackedBack(b: Bpb)
    requires Fits(b)
    ensures var s := Packed(b);
      U16(s, 19) == b.total16 && U16(s, 22) == b.fatSize16 && U32(s, 32) == b.total32 && U32(s, 36) == b.fatSize32
  {
    var s, k := Packed(b), Back(b);
    hide Front, Two, Four, U16, U32;
    assert s[19..40] == k;
    assert s[19..21] == k[..2] == Two(b.total16);
    assert s[22..24] == k[3..5] == Two(b.fatSize16);
    assert s[32..36] == k[13..17] == Four(b.total32);
    assert s[36..40] == k[17..21] == Four(b.fatSize32);
    TwoReads(s, 19, b.total16);
    TwoReads(s, 22, b.fatSize16);
    FourReads(s, 32, b.total32);
    FourReads(s, 36, b.fatSize32);
  }

  /** Every sector is the packed form of its fields. */
  lemma {:induction false} EverySector(s: seq<byte>) returns (b: Bpb)
    requires |s| == 512
    ensures Fits(b) && Packed(b) == s
  {
    b := Bpb(s[..3], s[3..11], U16(s, 11), s[13], U16(s, 14), s[16], U16(s, 17), U16(s, 19), s[21], U16(s, 22),
             U16(s, 24), U16(s, 26), U32(s, 28), U32(s, 32), U32(s, 36), s[40..]);
    TwoOf(s, 11);
    TwoOf(s, 14);
    TwoOf(s, 17);
    TwoOf(s, 19);
    TwoOf(s, 22);
    TwoOf(s, 24);
    TwoOf(s, 26);
    FourOf(s, 28);
    FourOf(s, 32);
    FourOf(s, 36);
    hide U16, U32, Two, Four;
    assert Front(b) == s[..19];
    assert Back(b) == s[19..40];
    assert s == s[..19] + s[19..40] + s[40..];
  }

  /** The sectors the areas in front of the data take, when the root directory takes `root`. */
  function Areas(b: Bpb, root: nat): nat {
    b.reserved + b.numFats * (if b.fatSize16 != 0 then b.fatSize16 else b.fatSize32) + root
  }

  function Total(b: Bpb): nat {
    if b.total16 != 0 then b.total16 else b.total32
  }

  /** What is set up from a boot sector with these fields. The root directory has room for all its entries and
      takes no sector more; the areas lie side by side; the clusters fill what is left but for less than one
      cluster; and the volume is FAT16 exactly for 4085 to 65524 clusters. */
  lemma {:induction false} GeometryOfFields(b: Bpb)
    requires Fits(b) && b.sectorsPerCluster >= 1
    requires forall root :: b.rootEntries <= 16 * root < b.rootEntries + 16 ==> Areas(b, root) <= Total(b)
    ensures BootOverhead(Packed(b)) <= BootTotal(Packed(b)) && Packed(b)[13] >= 1
    ensures var g := BootGeometry(Packed(b));
      && g.reserved == b.reserved && g.numFats == b.numFats && g.spc == b.sectorsPerCluster
      && g.fatSize == (if b.fatSize16 != 0 then b.fatSize16 else b.fatSize32)
      && b.rootEntries <= 16 * g.rootSectors < b.rootEntries + 16
      && RootStart(g) == Areas(b, 0) && DataStart(g) == Areas(b, g.rootSectors)
      && DataEnd(g) <= Total(b) < DataEnd(g) + b.sectorsPerCluster
      && (FatType(g.clusters) == 16 <==> 4085 <= g.clusters <= 65524)
      && (FatType(g.clusters) == 32 <==> g.clusters >= 65525)
      && (FatType(g.clusters) == 0 <==> g.clusters < 4085)
  {
    var s := Packed(b);
    PackedFront(b);
    PackedBack(b);
    hide Packed, Fits, U16, U32;
    var root := BootRootSectors(s);
    assert b.rootEntries <= 16 * root < b.rootEntries + 16;
    assert BootOverhead(s) == Areas(b, root) && BootTotal(s) == Total(b);
    hide BootOverhead, BootTotal, BootRootSectors, BootFatSize;
    BootFits(s);
    Leftover(Total(b), Areas(b, root), BootGeometry(s).clusters, b.sectorsPerCluster);
  }

  lemma {:induction false} Leftover(total: nat, areas: nat, clusters: nat, spc: nat)
    requires areas <= total && clusters * spc <= total - areas < (clusters + 1) * spc
    ensures areas + clusters * spc <= total < areas + clusters * spc + spc
  {
  }
}
