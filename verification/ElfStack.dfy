/** The argument block that `elf_prepare_stack` builds below a stack top. */
module ElfStack {
  import opened Arithmetic
  import opened Bytes

  const MAX_ARGS: nat := 16

  /** An argument pointer: null, or a C string. */
  datatype Arg = Null | Str(bytes: seq<byte>)

  /** The bytes stored for an argument; null is stored as the empty string. */
  function Stored(a: Arg): (r: seq<byte>)
    ensures |r| >= 1
  {
    match a
    case Null => [0]
    case Str(bytes) => bytes + [0]
  }

  function Total(args: seq<Arg>): nat {
    if args == [] then 0 else |Stored(args[0])| + Total(args[1..])
  }

  lemma {:induction false} TotalStep(args: seq<Arg>, i: nat)
    requires i < |args|
    ensures Total(args[i..]) == |Stored(args[i])| + Total(args[i + 1..])
  {
    assert args[i..][0] == args[i] && args[i..][1..] == args[i + 1..];
  }

  lemma {:induction false} TotalPrefix(args: seq<Arg>, i: nat)
    requires i <= |args|
    ensures Total(args[i..]) <= Total(args)
  {
    hide Total, Stored;
    if i == 0 {
      assert args[0..] == args;
    } else {
      TotalPrefix(args, i - 1);
      TotalStep(args, i - 1);
    }
  }

  // ---------------------------------------------------------------- the layout

  /** Where argument `i` is stored: the strings lie side by side, the last one ending at the stack top. */
  function StringAt(args: seq<Arg>, top: nat, i: nat): int
    requires i <= |args|
  {
    top - Total(args[i..])
  }

  /** `sp & ~3` */
  function AlignDown(a: nat): nat {
    a / 4 * 4
  }

  /** The pointer array starts here; the argument count is stored 4 bytes below. */
  function ArrayAt(args: seq<Arg>, top: nat): int
    requires Total(args) <= top
  {
    AlignDown(top - Total(args)) - 4 * (|args| + 1)
  }

  function EspOf(args: seq<Arg>, top: nat): int
    requires Total(args) <= top
  {
    ArrayAt(args, top) - 4
  }

  /** The first `n` words at `a` point to the stored arguments. */
  ghost predicate PointersAt(mem: seq<byte>, a: nat, args: seq<Arg>, top: nat, n: nat)
    requires n <= |args| && a + 4 * |args| <= |mem|
  {
    forall i :: 0 <= i < n ==> U32(mem, a + 4 * i) == StringAt(args, top, i)
  }

  /** The local array `arg_ptrs`, from entry `i` on. */
  ghost predicate PointersFrom(ptrs: seq<nat>, args: seq<Arg>, top: nat, i: nat)
    requires i <= |args|
  {
    |ptrs| == |args| - i && forall k :: i <= k < |args| ==> ptrs[k - i] == StringAt(args, top, k)
  }

  /** The bytes at address `p` are `bytes`. */
  predicate Holds(mem: seq<byte>, p: int, bytes: seq<byte>) {
    0 <= p && p + |bytes| <= |mem| && mem[p..p + |bytes|] == bytes
  }

  /** Arguments from `i` on are stored at their places. */
  ghost predicate StringsAt(mem: seq<byte>, args: seq<Arg>, top: nat, i: nat)
    requires i <= |args|
  {
    forall k :: i <= k < |args| ==> Holds(mem, StringAt(args, top, k), Stored(args[k]))
  }

  /** What a program finds at its entry: the count at esp, then one pointer for each argument and a null
      pointer, every pointer leading to a NUL-terminated copy of its argument. */
  ghost predicate ArgumentBlock(mem: seq<byte>, esp: nat, args: seq<Arg>, top: nat)
    requires Total(args) <= top <= |mem| && esp + 4 * |args| + 8 <= |mem|
  {
    && U32(mem, esp) == |args|
    && PointersAt(mem, esp + 4, args, top, |args|)
    && U32(mem, esp + 4 + 4 * |args|) == 0
    && StringsAt(mem, args, top, 0)
  }

  /** Strings, array and count do not overlap and end at the stack top. */
  lemma {:induction false} LayoutDisjoint(args: seq<Arg>, top: nat)
    requires Total(args) <= top && |args| <= MAX_ARGS && 76 <= top - Total(args)
    ensures 0 <= EspOf(args, top) && EspOf(args, top) % 4 == 0
    ensures ArrayAt(args, top) + 4 * (|args| + 1) <= StringAt(args, top, 0)
    ensures forall i :: 0 <= i < |args| ==> StringAt(args, top, i) + |Stored(args[i])| == StringAt(args, top, i + 1)
    ensures StringAt(args, top, |args|) == top
  {
    assert args[0..] == args;
    forall i | 0 <= i < |args|
      ensures StringAt(args, top, i) + |Stored(args[i])| == StringAt(args, top, i + 1)
    {
      TotalStep(args, i);
    }
  }

  /** The room check covers the strings only. The block stays inside the stack exactly when the array
      and the count fit below the strings as well. */
  predicate BlockFits(args: seq<Arg>, top: nat, size: nat)
    requires size <= top
  {
    Total(args) <= size && top - size <= (top - Total(args)) / 4 * 4 - 4 * (|args| + 2)
  }

  lemma {:induction false} InsideIffFits(args: seq<Arg>, top: nat, size: nat)
    requires size <= top && Total(args) <= size
    ensures top - size <= EspOf(args, top) <==> BlockFits(args, top, size)
  {
  }

  /** Sixteen empty arguments on the smallest accepted stack pass the check and overrun it by 24 bytes. */
  lemma {:induction false} SmallStackOverruns(args: seq<Arg>)
    requires |args| == 16 && forall i :: 0 <= i < 16 ==> args[i] == Str([])
    ensures Total(args) == 16 && EspOf(args, 0x1000) == 0xFA8 && !BlockFits(args, 0x1000, 64)
  {
    TotalOfEmpty(args);
  }

  lemma {:induction false} TotalOfEmpty(args: seq<Arg>)
    requires forall i :: 0 <= i < |args| ==> args[i] == Str([])
    ensures Total(args) == |args|
  {
    if args != [] {
      TotalOfEmpty(args[1..]);
    }
  }

  // ---------------------------------------------------------------- reading it

  /** The C string at address `p`. */
  function StringFrom(mem: seq<byte>, p: nat): seq<byte>
    decreases |mem| - p
  {
    if p >= |mem| || mem[p] == 0 then [] else [mem[p]] + StringFrom(mem, p + 1)
  }

  /** What a program that starts with this esp reads as its arguments. */
  ghost function ReadArguments(mem: seq<byte>, esp: nat): seq<seq<byte>>
    requires esp + 4 <= |mem| && esp + 4 * U32(mem, esp) + 4 <= |mem|
  {
    seq(U32(mem, esp), i requires 0 <= i < U32(mem, esp) => StringFrom(mem, U32(mem, esp + 4 + 4 * i)))
  }

  function Text(a: Arg): seq<byte> {
    match a
    case Null => []
    case Str(bytes) => bytes
  }

  lemma {:induction false} StringHeld(mem: seq<byte>, p: nat, bytes: seq<byte>)
    requires Holds(mem, p, bytes + [0]) && 0 !in bytes
    ensures StringFrom(mem, p) == bytes
    decreases |bytes|
  {
    var held := mem[p..p + |bytes| + 1];
    assert held == bytes + [0] && mem[p] == held[0];
    if bytes != [] {
      assert mem[p + 1..p + 1 + |bytes|] == held[1..] == bytes[1..] + [0];
      StringHeld(mem, p + 1, bytes[1..]);
    }
  }

  lemma {:induction false} ArgumentRead(mem: seq<byte>, a: nat, args: seq<Arg>, top: nat, i: nat)
    requires i < |args| && a + 4 * |args| <= |mem| && PointersAt(mem, a, args, top, |args|) && StringsAt(mem, args, top, 0)
    requires 0 !in Text(args[i])
    ensures StringFrom(mem, U32(mem, a + 4 * i)) == Text(args[i])
  {
    hide U32, StringFrom, Total;
    assert U32(mem, a + 4 * i) == StringAt(args, top, i);
    assert Stored(args[i]) == Text(args[i]) + [0];
    StringHeld(mem, StringAt(args, top, i), Text(args[i]));
  }

  /** The program reads exactly the arguments it was given. */
  lemma {:induction false} ArgumentsReadBack(mem: seq<byte>, esp: nat, args: seq<Arg>, top: nat)
    requires Total(args) <= top <= |mem| && esp + 4 * |args| + 8 <= |mem| && ArgumentBlock(mem, esp, args, top)
    requires forall i :: 0 <= i < |args| ==> 0 !in Text(args[i])
    ensures ReadArguments(mem, esp) == seq(|args|, i requires 0 <= i < |args| => Text(args[i]))
  {
    hide U32, StringFrom, Text, PointersAt, StringsAt, Total;
    forall i | 0 <= i < |args|
      ensures StringFrom(mem, U32(mem, esp + 4 + 4 * i)) == Text(args[i])
    {
      ArgumentRead(mem, esp + 4, args, top, i);
    }
  }

  // ---------------------------------------------------------------- building it

  class AddressSpace {
    var mem: seq<byte>

    /** `elf_prepare_stack`, for a stack that does not touch the lowest 76 addresses. It fails on a bad
        stack or argument count and when the strings do not fit; otherwise the argument block stands at
        the returned esp and only bytes between esp and the stack top have changed. */
    method PrepareStack(top: nat, size: nat, args: seq<Arg>, argc: int) returns (r: int, esp: nat)
      requires |mem| == TWO32 && top < TWO32 && (top == 0 || size < 64 || size + 76 <= top)
      requires 0 <= argc <= 16 ==> |args| == argc
      requires forall i :: 0 <= i < |args| ==> top - size + |Stored(args[i])| < TWO32
      modifies this
      ensures |mem| == TWO32
      ensures r == 0 || r == -1
      ensures r == 0 <==> top != 0 && size >= 64 && 0 <= argc <= 16 && Total(args) <= size
      ensures r == 0 ==>
        && Total(args) <= top && EspOf(args, top) >= 0 && esp == EspOf(args, top)
        && esp + 4 * |args| + 8 <= top
        && ArgumentBlock(mem, esp, args, top)
        && SameExcept(old(mem), mem, esp, top)
      ensures r == 0 ==> (top - size <= esp <==> BlockFits(args, top, size))
      ensures r == -1 && top != 0 && size >= 64 && 0 <= argc <= 16 ==> SameExcept(old(mem), mem, top - size, top)
      ensures r == -1 && !(top != 0 && size >= 64 && 0 <= argc <= 16) ==> mem == old(mem)
    {
      esp := 0;
      if top == 0 || size < 64 {
        return -1, 0;
      }
      if argc < 0 || argc > MAX_ARGS {
        return -1, 0;
      }
      hide ArgumentBlock, StringsAt, BlockFits, AlignDown, SameExcept, Total, PointersFrom;
      var ok, sp, ptrs := CopyStrings(top, size, args);
      if !ok {
        return -1, 0;
      }
      ghost var strings := mem;
      esp := WriteBlock(sp, args, top, ptrs);
      SameExceptBoth(old(mem), strings, mem, esp, sp, top);
      InsideIffFits(args, top, size);
      return 0, esp;
    }

    /** Align, write the array and the count below the strings. */
    method WriteBlock(start: nat, args: seq<Arg>, top: nat, ptrs: seq<nat>) returns (esp: nat)
      requires |mem| == TWO32 && top < TWO32 && Total(args) <= top && start == top - Total(args)
      requires 76 <= start && |args| <= MAX_ARGS && StringsAt(mem, args, top, 0) && PointersFrom(ptrs, args, top, 0)
      modifies this
      ensures |mem| == TWO32 && EspOf(args, top) == esp && esp + 4 * |args| + 8 <= start
      ensures ArgumentBlock(mem, esp, args, top) && SameExcept(old(mem), mem, esp, start)
    {
      LayoutDisjoint(args, top);
      assert args[0..] == args && StringAt(args, top, 0) == start;
      var sp := AlignDown(start) - 4 * (|args| + 1);
      assert sp == ArrayAt(args, top) && sp - 4 == EspOf(args, top);
      hide EspOf, ArrayAt, Total, StringAt, PutU32, U32, ArgumentBlock, StringsAt, AlignDown, SameExcept;
      WritePointers(sp, args, top, ptrs);
      sp := sp - 4;
      ghost var before := mem;
      mem := PutU32(mem, sp, |args|);
      WordWritten(before, sp, |args|);
      BlockStands(old(mem), before, mem, sp, args, top);
      return sp;
    }

    /** The string loop, from the last argument down. */
    method CopyStrings(top: nat, size: nat, args: seq<Arg>) returns (ok: bool, sp: nat, ptrs: seq<nat>)
      requires |mem| == TWO32 && top < TWO32 && size <= top
      requires forall i :: 0 <= i < |args| ==> top - size + |Stored(args[i])| < TWO32
      modifies this
      ensures |mem| == TWO32 && SameExcept(old(mem), mem, top - size, top)
      ensures ok <==> Total(args) <= size
      ensures ok ==>
        && sp + Total(args) == top && SameExcept(old(mem), mem, sp, top) && StringsAt(mem, args, top, 0)
        && PointersFrom(ptrs, args, top, 0)
    {
      hide Patched, SameExcept, PointersFrom, StringsAt, Total, Stored, Holds;
      ptrs := [];
      sp := top;
      var i := |args|;
      NothingStored(mem, args, top);
      while i > 0
        invariant 0 <= i <= |args| && |mem| == TWO32
        invariant Total(args[i..]) <= size && sp == StringAt(args, top, i)
        invariant PointersFrom(ptrs, args, top, i)
        invariant StringsAt(mem, args, top, i) && SameExcept(old(mem), mem, sp, top)
      {
        TotalStep(args, i - 1);
        TotalPrefix(args, i - 1);
        var bytes := Stored(args[i - 1]);
        if sp < top - size + |bytes| {
          Wider(old(mem), mem, sp, top - size, top);
          return false, sp, [];
        }
        sp := sp - |bytes|;
        ghost var was := mem;
        mem := Patched(mem, sp, bytes);
        HoldsPatched(was, sp, bytes);
        StringsGrow(was, mem, args, top, i);
        SameExceptBoth(old(mem), was, mem, sp, sp + |bytes|, top);
        PointersPrepended(ptrs, args, top, i, sp);
        ptrs := [sp] + ptrs;
        i := i - 1;
      }
      assert args[0..] == args;
      Wider(old(mem), mem, sp, top - size, top);
      return true, sp, ptrs;
    }

    /** The loop that writes the pointer array and its terminator. */
    method WritePointers(sp: nat, args: seq<Arg>, top: nat, ptrs: seq<nat>)
      requires |mem| == TWO32 && sp + 4 * (|args| + 1) <= TWO32 && top < TWO32
      requires PointersFrom(ptrs, args, top, 0)
      modifies this
      ensures |mem| == TWO32 && SameExcept(old(mem), mem, sp, sp + 4 * (|args| + 1))
      ensures PointersAt(mem, sp, args, top, |args|) && U32(mem, sp + 4 * |args|) == 0
    {
      var i := 0;
      while i < |args|
        invariant 0 <= i <= |args| && |mem| == TWO32
        invariant PointersAt(mem, sp, args, top, i) && SameExcept(old(mem), mem, sp, sp + 4 * (|args| + 1))
      {
        ghost var was := mem;
        assert ptrs[i - 0] == StringAt(args, top, i) <= top;
        mem := PutU32(mem, sp + 4 * i, ptrs[i]);
        PointersKept(was, mem, sp, args, top, i);
        i := i + 1;
      }
      ghost var was := mem;
      mem := PutU32(mem, sp + 4 * i, 0);
      PointersKept(was, mem, sp, args, top, i);
    }
  }

  lemma {:induction false} NothingStored(mem: seq<byte>, args: seq<Arg>, top: nat)
    ensures StringsAt(mem, args, top, |args|) && PointersFrom([], args, top, |args|)
    ensures StringAt(args, top, |args|) == top && Total(args[|args|..]) == 0 && SameExcept(mem, mem, top, top)
  {
  }

  /** Two changes in a row, the second one possibly further down. */
  lemma {:induction false} SameExceptBoth(a: seq<byte>, b: seq<byte>, c: seq<byte>, lo: int, mid: int, hi: int)
    requires SameExcept(a, b, mid, hi) && SameExcept(b, c, lo, mid) && lo <= mid <= hi
    ensures SameExcept(a, c, lo, hi)
  {
  }

  lemma {:induction false} Wider(a: seq<byte>, b: seq<byte>, lo: int, lo': int, hi: int)
    requires SameExcept(a, b, lo, hi) && lo' <= lo
    ensures SameExcept(a, b, lo', hi)
  {
  }

  lemma {:induction false} PointersPrepended(ptrs: seq<nat>, args: seq<Arg>, top: nat, i: nat, p: nat)
    requires 0 < i <= |args| && PointersFrom(ptrs, args, top, i) && p == StringAt(args, top, i - 1)
    ensures PointersFrom([p] + ptrs, args, top, i - 1)
  {
  }

  lemma {:induction false} HoldsPatched(mem: seq<byte>, p: nat, bytes: seq<byte>)
    requires p + |bytes| <= |mem|
    ensures Holds(Patched(mem, p, bytes), p, bytes)
    ensures SameExcept(mem, Patched(mem, p, bytes), p, p + |bytes|)
  {
  }

  lemma {:induction false} HoldsKept(mem: seq<byte>, mem': seq<byte>, lo: int, hi: int, p: int, bytes: seq<byte>)
    requires Holds(mem, p, bytes) && SameExcept(mem, mem', lo, hi) && hi <= p
    ensures Holds(mem', p, bytes)
  {
    assert mem'[p..p + |bytes|] == mem[p..p + |bytes|];
  }

  lemma {:induction false} StringsOrdered(args: seq<Arg>, top: nat, i: nat, k: nat)
    requires i <= k < |args|
    ensures StringAt(args, top, i) <= StringAt(args, top, k) == StringAt(args, top, k + 1) - |Stored(args[k])| <= top - |Stored(args[k])|
    decreases k - i
  {
    hide Total, Stored;
    TotalStep(args, k);
    if i < k {
      TotalStep(args, i);
      StringsOrdered(args, top, i + 1, k);
    }
  }

  /** Whatever changes below string `i` leaves it and those above it alone. */
  lemma {:induction false} StringsKept(mem: seq<byte>, mem': seq<byte>, lo: int, hi: int, args: seq<Arg>, top: nat, i: nat)
    requires i <= |args| && StringsAt(mem, args, top, i)
    requires SameExcept(mem, mem', lo, hi) && hi <= StringAt(args, top, i)
    ensures StringsAt(mem', args, top, i)
  {
    forall k | i <= k < |args|
      ensures Holds(mem', StringAt(args, top, k), Stored(args[k]))
    {
      StringsOrdered(args, top, i, k);
      HoldsKept(mem, mem', lo, hi, StringAt(args, top, k), Stored(args[k]));
    }
  }

  /** Storing argument `i - 1` just below the others leaves them alone. */
  lemma {:induction false} StringsGrow(mem: seq<byte>, mem': seq<byte>, args: seq<Arg>, top: nat, i: nat)
    requires 0 < i <= |args| && StringsAt(mem, args, top, i)
    requires Holds(mem', StringAt(args, top, i - 1), Stored(args[i - 1]))
    requires SameExcept(mem, mem', StringAt(args, top, i - 1), StringAt(args, top, i))
    ensures StringsAt(mem', args, top, i - 1)
  {
    StringsKept(mem, mem', StringAt(args, top, i - 1), StringAt(args, top, i), args, top, i);
  }

  /** Writing word `i` of the array keeps the words before it. */
  lemma {:induction false} PointersKept(mem: seq<byte>, mem': seq<byte>, a: nat, args: seq<Arg>, top: nat, i: nat)
    requires i <= |args| && a + 4 * (|args| + 1) <= |mem| == |mem'|
    requires PointersAt(mem, a, args, top, i)
    requires SameExcept(mem, mem', a + 4 * i, a + 4 * i + 4)
    ensures PointersAt(mem', a, args, top, i)
    ensures i < |args| && U32(mem', a + 4 * i) == StringAt(args, top, i) ==> PointersAt(mem', a, args, top, i + 1)
  {
    forall k | 0 <= k < i
      ensures U32(mem', a + 4 * k) == StringAt(args, top, k)
    {
      WordKept(mem, mem', a + 4 * i, a + 4 * i + 4, a + 4 * k);
    }
  }

  /** Array and count lie below the strings, so all parts stand together. */
  lemma {:induction false} BlockStands(strings: seq<byte>, before: seq<byte>, mem: seq<byte>, esp: nat, args: seq<Arg>, top: nat)
    requires Total(args) <= top <= |mem| && |strings| == |before| == |mem|
    requires esp + 4 * |args| + 8 <= StringAt(args, top, 0) && StringsAt(strings, args, top, 0)
    requires SameExcept(strings, before, esp + 4, esp + 4 + 4 * (|args| + 1))
    requires PointersAt(before, esp + 4, args, top, |args|) && U32(before, esp + 4 + 4 * |args|) == 0
    requires U32(mem, esp) == |args| && SameExcept(before, mem, esp, esp + 4)
    ensures ArgumentBlock(mem, esp, args, top) && SameExcept(strings, mem, esp, StringAt(args, top, 0))
  {
    assert args[0..] == args;
    StringsKept(strings, before, esp + 4, esp + 4 + 4 * (|args| + 1), args, top, 0);
    StringsKept(before, mem, esp, esp + 4, args, top, 0);
    PointersAbove(before, mem, esp, args, top);
  }

  lemma {:induction false} PointersAbove(before: seq<byte>, mem: seq<byte>, esp: nat, args: seq<Arg>, top: nat)
    requires esp + 4 * |args| + 8 <= |mem| == |before| && SameExcept(before, mem, esp, esp + 4)
    requires PointersAt(before, esp + 4, args, top, |args|) && U32(before, esp + 4 + 4 * |args|) == 0
    ensures PointersAt(mem, esp + 4, args, top, |args|) && U32(mem, esp + 4 + 4 * |args|) == 0
  {
    forall k | 0 <= k <= |args|
      ensures U32(mem, esp + 4 + 4 * k) == U32(before, esp + 4 + 4 * k)
    {
      WordKept(before, mem, esp, esp + 4, esp + 4 + 4 * k);
    }
  }
}
