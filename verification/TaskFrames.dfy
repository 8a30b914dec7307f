/** The register frame that `task_context_init` of task.c builds on a new stack, in the form in which the
    interrupt stub restores it. */
module TaskFrames {
  import opened Arithmetic
  import opened Bytes

  const KERNEL_DATA: nat := 0x10
  const KERNEL_CODE: nat := 0x08
  /** Interrupts enabled. */
  const FLAGS: nat := 0x202

  /** From the stack pointer upwards: data segment, eight registers, interrupt number, error code, and what
      `iret` pops: instruction pointer, code segment and flags. */
  function InitialFrame(entry: nat): (r: seq<nat>)
    ensures |r| == 14
  {
    [KERNEL_DATA, 0, 0, 0, 0, 0, 0, 0, 0, 0, 0, entry, KERNEL_CODE, FLAGS]
  }

  /** Every word fits in 32 bits. */
  predicate Words(ws: seq<nat>) {
    forall k :: 0 <= k < |ws| ==> ws[k] < TWO32
  }

  /** The word number `k` from `at` upwards. */
  function WordAt(mem: seq<byte>, at: nat, k: nat): nat
    requires at + 4 * k + 4 <= |mem|
  {
    U32(mem, at + 4 * k)
  }

  /** Memory after the words were pushed, the last one first, so that they end up at `at`. */
  function Pushed(mem: seq<byte>, at: nat, ws: seq<nat>): (r: seq<byte>)
    requires at + 4 * |ws| <= |mem| && Words(ws)
    ensures |r| == |mem|
    decreases |ws|
  {
    if ws == [] then mem else PutU32(Pushed(mem, at + 4, ws[1..]), at, ws[0])
  }

  /** A push leaves the words above it alone. */
  lemma {:induction false} WordAbove(mem: seq<byte>, mem': seq<byte>, at: nat, k: nat)
    requires SameExcept(mem, mem', at, at + 4) && at + 4 * k + 4 <= |mem| && 1 <= k
    ensures WordAt(mem', at, k) == WordAt(mem, at + 4, k - 1)
  {
    WordKept(mem, mem', at, at + 4, at + 4 * k);
  }

  /** The words are there, and nothing else changed. */
  lemma {:induction false} PushedWords(mem: seq<byte>, at: nat, ws: seq<nat>)
    requires at + 4 * |ws| <= |mem| && Words(ws)
    ensures SameExcept(mem, Pushed(mem, at, ws), at, at + 4 * |ws|)
    ensures forall k :: 0 <= k < |ws| ==> WordAt(Pushed(mem, at, ws), at, k) == ws[k]
    decreases |ws|
  {
    if ws != [] {
      var m := Pushed(mem, at + 4, ws[1..]);
      PushedWords(mem, at + 4, ws[1..]);
      WordWritten(m, at, ws[0]);
      hide U32, PutU32;
      forall k | 1 <= k < |ws|
        ensures WordAt(Pushed(mem, at, ws), at, k) == ws[k]
      {
        assert WordAt(m, at + 4, k - 1) == ws[1..][k - 1];
        WordAbove(m, PutU32(m, at, ws[0]), at, k);
      }
    }
  }

  /** What the stub restores from a frame at `esp`: it pops the data segment and the registers, drops two
      words, and `iret` takes instruction pointer, code segment and flags. */
  predicate StartsAt(mem: seq<byte>, esp: nat, entry: nat) {
    && esp + 56 <= |mem|
    && WordAt(mem, esp, 0) == 0x10
    && (forall k :: 1 <= k < 9 ==> WordAt(mem, esp, k) == 0)
    && WordAt(mem, esp, 11) == entry && WordAt(mem, esp, 12) == 0x08 && WordAt(mem, esp, 13) == 0x202
  }

  /** The stub restores a pushed initial frame to the entry point, with cleared registers. */
  lemma {:induction false} FrameStarts(mem: seq<byte>, at: nat, entry: nat)
    requires at + 56 <= |mem| && entry < TWO32
    ensures Words(InitialFrame(entry)) && StartsAt(Pushed(mem, at, InitialFrame(entry)), at, entry)
  {
    PushedWords(mem, at, InitialFrame(entry));
    hide Pushed, WordAt;
  }

  /** The frame is a matter of its bytes. */
  lemma {:induction false} StartsFrame(mem: seq<byte>, mem': seq<byte>, esp: nat, entry: nat)
    requires StartsAt(mem, esp, entry) && |mem'| == |mem|
    requires forall q :: esp <= q < esp + 56 ==> mem'[q] == mem[q]
    ensures StartsAt(mem', esp, entry)
  {
    assert forall k :: 0 <= k < 14 ==> WordAt(mem', esp, k) == WordAt(mem, esp, k);
  }
}
