/** Little-endian fields inside byte buffers, as the i386 kernel reads and writes them through
    casted pointers. Bytes are integers in 0..255, so the encodings are linear arithmetic. */
module Bytes {
  import opened Arithmetic

  type byte = x: int | 0 <= x < 256

  /** `*(u16int *)(b + o)` */
  function U16(b: seq<byte>, o: nat): (v: nat)
    requires o + 2 <= |b|
    ensures v < 0x1_0000
  {
    var lo: int, hi: int := b[o], b[o + 1];
    lo + 0x100 * hi
  }

  /** `*(u32int *)(b + o)` */
  function U32(b: seq<byte>, o: nat): (v: nat)
    requires o + 4 <= |b|
    ensures v < 0x1_0000_0000
  {
    U16(b, o) + 0x1_0000 * U16(b, o + 2)
  }

  /** `*(u16int *)(b + o) = (u16int)v` */
  function PutU16(b: seq<byte>, o: nat, v: nat): (r: seq<byte>)
    requires o + 2 <= |b|
    ensures |r| == |b|
    ensures U16(r, o) == v % 0x1_0000
    ensures forall i :: 0 <= i < |b| && !(o <= i < o + 2) ==> r[i] == b[i]
  {
    var u := v % 0x1_0000;
    b[o := u % 256][o + 1 := u / 256]
  }

  /** `*(u32int *)(b + o) = v` */
  function PutU32(b: seq<byte>, o: nat, v: nat): (r: seq<byte>)
    requires o + 4 <= |b|
    requires v < 0x1_0000_0000
    ensures |r| == |b|
    ensures U32(r, o) == v
    ensures forall i :: 0 <= i < |b| && !(o <= i < o + 4) ==> r[i] == b[i]
  {
    PutU16(PutU16(b, o, v), o + 2, v / 0x1_0000)
  }

  /** A buffer with `src` copied over it from index `at` on. */
  function Patched(buf: seq<byte>, at: nat, src: seq<byte>): (r: seq<byte>)
    requires at + |src| <= |buf|
    ensures |r| == |buf|
  {
    buf[..at] + src + buf[at + |src|..]
  }

  lemma {:induction false} PatchedTwice(buf: seq<byte>, at: nat, a: seq<byte>, b: seq<byte>)
    requires at + |a| + |b| <= |buf|
    ensures Patched(Patched(buf, at, a), at + |a|, b) == Patched(buf, at, a + b)
  {
  }

  /** One more byte. */
  lemma {:induction false} PatchedStep(buf: seq<byte>, at: nat, src: seq<byte>, i: nat)
    requires at + |src| <= |buf| && i < |src|
    ensures Patched(buf, at, src[..i])[at + i := src[i]] == Patched(buf, at, src[..i + 1])
  {
  }

  lemma {:induction false} PatchedNothing(buf: seq<byte>, at: nat)
    requires at <= |buf|
    ensures Patched(buf, at, []) == buf
  {
  }

  /** Nothing outside [lo, hi) differs. */
  ghost predicate SameExcept(mem: seq<byte>, mem': seq<byte>, lo: int, hi: int) {
    |mem'| == |mem| && forall p :: 0 <= p < |mem| && !(lo <= p < hi) ==> mem'[p] == mem[p]
  }

  lemma {:induction false} PatchedSame(buf: seq<byte>, at: nat, src: seq<byte>)
    requires at + |src| <= |buf|
    ensures SameExcept(buf, Patched(buf, at, src), at, at + |src|)
  {
  }

  lemma {:induction false} WordKept(mem: seq<byte>, mem': seq<byte>, lo: int, hi: int, p: nat)
    requires SameExcept(mem, mem', lo, hi) && p + 4 <= |mem| && (hi <= p || p + 4 <= lo)
    ensures U32(mem', p) == U32(mem, p)
  {
  }

  lemma {:induction false} WordWritten(mem: seq<byte>, p: nat, v: nat)
    requires p + 4 <= |mem| && v < TWO32
    ensures SameExcept(mem, PutU32(mem, p, v), p, p + 4) && U32(PutU32(mem, p, v), p) == v
  {
  }

  lemma {:induction false} U16Injective(a: seq<byte>, b: seq<byte>, o: nat)
    requires o + 2 <= |a| == |b| && U16(a, o) == U16(b, o)
    ensures a[o] == b[o] && a[o + 1] == b[o + 1]
  {
    var al: int, ah: int, bl: int, bh: int := a[o], a[o + 1], b[o], b[o + 1];
    assert al + 0x100 * ah == bl + 0x100 * bh;
  }

  lemma {:induction false} U32Injective(a: seq<byte>, b: seq<byte>, o: nat)
    requires o + 4 <= |a| == |b| && U32(a, o) == U32(b, o)
    ensures forall q :: o <= q < o + 4 ==> a[q] == b[q]
  {
    hide U16;
    assert U16(a, o) + 0x1_0000 * U16(a, o + 2) == U16(b, o) + 0x1_0000 * U16(b, o + 2);
    U16Injective(a, b, o);
    U16Injective(a, b, o + 2);
  }

  // ---------------------------------------------------------------- numbers as bytes

  /** Two bytes, the low one first. */
  function Two(v: nat): (r: seq<byte>)
    requires v < 0x1_0000
    ensures |r| == 2
  {
    [v % 0x100, v / 0x100]
  }

  /** Four bytes, the low one first. */
  function Four(v: nat): (r: seq<byte>)
    requires v < TWO32
    ensures |r| == 4
  {
    Two(v % 0x1_0000) + Two(v / 0x1_0000)
  }

  lemma {:induction false} TwoReads(s: seq<byte>, o: nat, v: nat)
    requires v < 0x1_0000 && o + 2 <= |s| && s[o..o + 2] == Two(v)
    ensures U16(s, o) == v
  {
    assert s[o] == s[o..o + 2][0] && s[o + 1] == s[o..o + 2][1];
  }

  lemma {:induction false} FourReads(s: seq<byte>, o: nat, v: nat)
    requires v < TWO32 && o + 4 <= |s| && s[o..o + 4] == Four(v)
    ensures U32(s, o) == v
  {
    var q := s[o..o + 4];
    assert s[o..o + 2] == q[..2] == Two(v % 0x1_0000);
    assert s[o + 2..o + 4] == q[2..] == Two(v / 0x1_0000);
    TwoReads(s, o, v % 0x1_0000);
    TwoReads(s, o + 2, v / 0x1_0000);
  }

  lemma {:induction false} TwoOf(s: seq<byte>, o: nat)
    requires o + 2 <= |s|
    ensures Two(U16(s, o)) == s[o..o + 2]
  {
  }

  lemma {:induction false} FourOf(s: seq<byte>, o: nat)
    requires o + 4 <= |s|
    ensures Four(U32(s, o)) == s[o..o + 4]
  {
    var lo, hi := U16(s, o), U16(s, o + 2);
    TwoOf(s, o);
    TwoOf(s, o + 2);
    assert U32(s, o) % 0x1_0000 == lo && U32(s, o) / 0x1_0000 == hi;
    hide U16, U32, Two;
    assert s[o..o + 4] == s[o..o + 2] + s[o + 2..o + 4];
  }
}
