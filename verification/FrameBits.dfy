/** The frame bitmap: 32-bit words and the sequence of marks they pack. */
module FrameBits {

  /** `(w >> i) & 1`, with the shift count as a machine word. */
  predicate WordBit(w: bv32, i: bv5) {
    (w >> i) & 1 == 1
  }

  /** `w | (1U << i)` */
  function WordWith(w: bv32, i: bv5): bv32
  {
    w | (1 << i)
  }

  /** `w & ~(1U << i)` */
  function WordWithout(w: bv32, i: bv5): bv32
  {
    w & !(1 << i)
  }

  /** A bit number as a machine word. */
  function Index(i: nat): (v: bv5)
    requires i < 32
  {
    i as bv5
  }

  lemma {:induction false} IndexInjective(i: nat, j: nat)
    requires i < 32 && j < 32
    ensures Index(i) == Index(j) <==> i == j
  {
    hide Index;
    IndexBack(i);
    IndexBack(j);
  }

  lemma {:induction false} IndexBack(i: nat)
    requires i < 32
    ensures Index(i) as nat == i
  {
  }

  predicate Bit(w: bv32, i: nat)
    requires i < 32
  {
    WordBit(w, Index(i))
  }

  function With(w: bv32, i: nat): bv32
    requires i < 32
  {
    WordWith(w, Index(i))
  }

  function Without(w: bv32, i: nat): bv32
    requires i < 32
  {
    WordWithout(w, Index(i))
  }

  lemma {:induction false} SetWordBit(w: bv32, i: bv5, j: bv5)
    ensures WordBit(WordWith(w, i), j) <==> WordBit(w, j) || i == j
  {
  }

  lemma {:induction false} ClearWordBit(w: bv32, i: bv5, j: bv5)
    ensures WordBit(WordWithout(w, i), j) <==> WordBit(w, j) && i != j
  {
  }

  /** Setting one bit changes that bit only. */
  lemma {:induction false} SetBit(w: bv32, i: nat, j: nat)
    requires i < 32 && j < 32
    ensures Bit(With(w, i), j) <==> Bit(w, j) || i == j
  {
    hide WordBit, WordWith, Index;
    IndexInjective(i, j);
    SetWordBit(w, Index(i), Index(j));
  }

  /** Clearing one bit changes that bit only. */
  lemma {:induction false} ClearBit(w: bv32, i: nat, j: nat)
    requires i < 32 && j < 32
    ensures Bit(Without(w, i), j) <==> Bit(w, j) && i != j
  {
    hide WordBit, WordWithout, Index;
    IndexInjective(i, j);
    ClearWordBit(w, Index(i), Index(j));
  }

  /** The mask test of the allocator: `w & (1U << i)` */
  predicate MaskBit(w: bv32, i: bv5)
  {
    w & (1 << i) != 0
  }

  lemma {:induction false} MaskTest(w: bv32, i: bv5)
    ensures MaskBit(w, i) == WordBit(w, i)
  {
  }

  /** A word differs from all ones exactly when some bit is clear. */
  lemma {:induction false} FullWord(w: bv32)
    ensures w == 0xFFFF_FFFF <==> forall i :: 0 <= i < 32 ==> Bit(w, i)
  {
    if forall i :: 0 <= i < 32 ==> Bit(w, i) {
      hide WordBit;
      assert Bit(w, 0) && Bit(w, 1) && Bit(w, 2) && Bit(w, 3) && Bit(w, 4) && Bit(w, 5) && Bit(w, 6) && Bit(w, 7);
      assert Bit(w, 8) && Bit(w, 9) && Bit(w, 10) && Bit(w, 11) && Bit(w, 12) && Bit(w, 13) && Bit(w, 14) && Bit(w, 15);
      assert Bit(w, 16) && Bit(w, 17) && Bit(w, 18) && Bit(w, 19) && Bit(w, 20) && Bit(w, 21) && Bit(w, 22) && Bit(w, 23);
      assert Bit(w, 24) && Bit(w, 25) && Bit(w, 26) && Bit(w, 27) && Bit(w, 28) && Bit(w, 29) && Bit(w, 30) && Bit(w, 31);
      FullLowHalf(w);
      FullHighHalf(w);
      BothHalves(w);
    } else {
      var i :| 0 <= i < 32 && !Bit(w, i);
      hide Index;
      AllOnes(Index(i));
    }
  }

  lemma {:induction false} FullLowHalf(w: bv32)
    requires WordBit(w, 0) && WordBit(w, 1) && WordBit(w, 2) && WordBit(w, 3)
    requires WordBit(w, 4) && WordBit(w, 5) && WordBit(w, 6) && WordBit(w, 7)
    requires WordBit(w, 8) && WordBit(w, 9) && WordBit(w, 10) && WordBit(w, 11)
    requires WordBit(w, 12) && WordBit(w, 13) && WordBit(w, 14) && WordBit(w, 15)
    ensures w & 0xFFFF == 0xFFFF
  {
  }

  lemma {:induction false} FullHighHalf(w: bv32)
    requires WordBit(w, 16) && WordBit(w, 17) && WordBit(w, 18) && WordBit(w, 19)
    requires WordBit(w, 20) && WordBit(w, 21) && WordBit(w, 22) && WordBit(w, 23)
    requires WordBit(w, 24) && WordBit(w, 25) && WordBit(w, 26) && WordBit(w, 27)
    requires WordBit(w, 28) && WordBit(w, 29) && WordBit(w, 30) && WordBit(w, 31)
    ensures w & 0xFFFF_0000 == 0xFFFF_0000
  {
  }

  lemma {:induction false} BothHalves(w: bv32)
    requires w & 0xFFFF == 0xFFFF && w & 0xFFFF_0000 == 0xFFFF_0000
    ensures w == 0xFFFF_FFFF
  {
  }

  lemma {:induction false} AllOnes(i: bv5)
    ensures WordBit(0xFFFF_FFFF, i)
  {
  }

  /** One mark per frame: true means used. */
  function Unpack(words: seq<bv32>): (m: seq<bool>)
    ensures |m| == 32 * |words|
  {
    seq(32 * |words|, f requires 0 <= f < 32 * |words| => Bit(words[f / 32], f % 32))
  }

  /** Rewriting one bit of one word rewrites one mark. */
  lemma {:induction false} UnpackPatch(words: seq<bv32>, f: nat, w: bv32, val: bool)
    requires f < 32 * |words|
    requires forall j :: 0 <= j < 32 ==> (Bit(w, j) <==> if j == f % 32 then val else Bit(words[f / 32], j))
    ensures Unpack(words[f / 32 := w]) == Unpack(words)[f := val]
  {
    hide Bit;
    var m, m' := Unpack(words), Unpack(words[f / 32 := w]);
    forall x | 0 <= x < |m|
      ensures m'[x] == m[f := val][x]
    {
      if x / 32 == f / 32 {
        assert x % 32 == f % 32 <==> x == f;
        assert Bit(w, x % 32) <==> if x % 32 == f % 32 then val else Bit(words[f / 32], x % 32);
      }
    }
  }

  lemma {:induction false} UnpackSet(words: seq<bv32>, f: nat)
    requires f < 32 * |words|
    ensures Unpack(words[f / 32 := With(words[f / 32], f % 32)]) == Unpack(words)[f := true]
  {
    hide *;
    forall j | 0 <= j < 32
      ensures Bit(With(words[f / 32], f % 32), j) <==> if j == f % 32 then true else Bit(words[f / 32], j)
    {
      SetBit(words[f / 32], f % 32, j);
    }
    UnpackPatch(words, f, With(words[f / 32], f % 32), true);
  }

  lemma {:induction false} UnpackClear(words: seq<bv32>, f: nat)
    requires f < 32 * |words|
    ensures Unpack(words[f / 32 := Without(words[f / 32], f % 32)]) == Unpack(words)[f := false]
  {
    hide *;
    forall j | 0 <= j < 32
      ensures Bit(Without(words[f / 32], f % 32), j) <==> if j == f % 32 then false else Bit(words[f / 32], j)
    {
      ClearBit(words[f / 32], f % 32, j);
    }
    UnpackPatch(words, f, Without(words[f / 32], f % 32), false);
  }
}
