/** Number printing of kprintf.c: shift-subtract division on 64 bits, and digits that decode back. */
module Printing {
  import opened Arithmetic

  const TWO64: nat := 0x1_0000_0000_0000_0000
  const BUFFER_SIZE: nat := 32

  // ---------------------------------------------------------------- bits

  /** `a | b` */
  function BitOr(a: nat, b: nat): nat
    decreases a + b
  {
    if a == 0 then b
    else if b == 0 then a
    else (if a % 2 == 1 || b % 2 == 1 then 1 else 0) + 2 * BitOr(a / 2, b / 2)
  }

  /** Bit `k` of a number. */
  predicate BitSet(a: nat, k: nat) {
    if k == 0 then a % 2 == 1 else BitSet(a / 2, k - 1)
  }

  lemma {:induction false} ZeroBits(k: nat)
    ensures !BitSet(0, k)
  {
    if k > 0 {
      ZeroBits(k - 1);
    }
  }

  /** A bit of the result is set exactly when it is set in one of the two. */
  lemma {:induction false} BitOrBits(a: nat, b: nat, k: nat)
    ensures BitSet(BitOr(a, b), k) <==> BitSet(a, k) || BitSet(b, k)
    decreases k
  {
    ZeroBits(k);
    if a != 0 && b != 0 {
      var odd := if a % 2 == 1 || b % 2 == 1 then 1 else 0;
      var rest := BitOr(a / 2, b / 2);
      assert BitOr(a, b) == odd + 2 * rest;
      assert (odd + 2 * rest) / 2 == rest && (odd + 2 * rest) % 2 == odd;
      if k > 0 {
        BitOrBits(a / 2, b / 2, k - 1);
      }
    }
  }

  predicate IsPowerOfTwo(p: nat) {
    p == 1 || (p > 1 && p % 2 == 0 && IsPowerOfTwo(p / 2))
  }

  /** Setting a bit below all set bits is addition. */
  lemma {:induction false} OrIsSum(m: nat, p: nat)
    requires IsPowerOfTwo(p)
    ensures BitOr(m * (2 * p), p) == m * (2 * p) + p
    decreases p
  {
    var a := m * (2 * p);
    if m == 0 {
      assert a == 0;
    } else if p == 1 {
      assert a == 2 * m && a / 2 == m;
      assert BitOr(a, 1) == 1 + 2 * BitOr(m, 0);
    } else {
      OrIsSum(m, p / 2);
      MulAssoc(m, 2, p);
      assert a == 2 * (m * p);
      assert m * (2 * (p / 2)) == m * p;
    }
  }

  /** `x << 1` on 64 bits */
  function Shl(x: nat): nat {
    2 * x % TWO64
  }

  /** `u64_divmod`: exact quotient and remainder for every 64-bit dividend and non-zero 32-bit divisor. */
  method DivMod(n0: nat, base: nat) returns (quotient: nat, rem: nat)
    requires n0 < TWO64 && base < TWO32
    ensures base == 0 ==> quotient == 0 && rem == 0
    ensures base != 0 ==> n0 == quotient * base + rem && rem < base
  {
    if base == 0 {
      return 0, 0;
    }
    quotient := 0;
    var n: nat, denom: nat, current: nat := n0, base, 1;
    while Shl(denom) > denom && Shl(denom) <= n
      invariant IsPowerOfTwo(current) && denom == base * current && 0 < denom < TWO64
      decreases TWO64 - denom
    {
      DoubleStep(base, current);
      denom := Shl(denom);
      current := Shl(current);
    }
    NoWrap(denom);
    assert n < 2 * denom;
    ghost var m: nat := 0;
    while current != 0
      invariant n0 == quotient * base + n
      invariant current != 0 ==>
        IsPowerOfTwo(current) && denom == base * current && n < 2 * denom && quotient == m * (2 * current)
      invariant current == 0 ==> n < base
      decreases current
    {
      OrIsSum(m, current);
      HalveStep(base, current, denom, m);
      ghost var q := quotient;
      if n >= denom {
        n := n - denom;
        quotient := BitOr(quotient, current);
        MulSplit(q, current, base);
        m := 2 * m + 1;
      } else {
        m := 2 * m;
      }
      denom := denom / 2;
      current := current / 2;
    }
    rem := n;
  }

  /** A doubling that grows did not wrap. */
  lemma {:induction false} NoWrap(d: nat)
    requires 0 < d < TWO64
    ensures Shl(d) > d <==> 2 * d < TWO64
    ensures 2 * d < TWO64 ==> Shl(d) == 2 * d
  {
  }

  lemma {:induction false} DoubleStep(base: nat, current: nat)
    requires 0 < base && IsPowerOfTwo(current) && base * current < TWO64 && Shl(base * current) > base * current
    ensures Shl(base * current) == base * Shl(current) == 2 * (base * current) < TWO64
    ensures IsPowerOfTwo(Shl(current)) && Shl(current) == 2 * current
  {
    NoWrap(base * current);
    MulMono(1, base, current);
    NoWrap(current);
    MulAssoc(base, 2, current);
    assert 2 * current / 2 == current;
  }

  /** One step down: a remainder below the divisor at scale `current` is below twice the next one. */
  lemma {:induction false} HalveStep(base: nat, current: nat, denom: nat, m: nat)
    requires 0 < base && IsPowerOfTwo(current) && denom == base * current
    ensures current == 1 ==> current / 2 == 0 && denom == base
    ensures current > 1 ==> IsPowerOfTwo(current / 2) && denom == 2 * (base * (current / 2)) && denom / 2 == base * (current / 2)
    ensures m * (2 * current) == (2 * m) * current && m * (2 * current) + current == (2 * m + 1) * current
    ensures current > 1 ==> 2 * (current / 2) == current
  {
    if current > 1 {
      MulAssoc(base, 2, current / 2);
    }
    MulAssoc(m, 2, current);
    MulSplit(2 * m, 1, current);
  }

  // ---------------------------------------------------------------- numerals

  function DigitChar(d: nat, upper: bool): char
    requires d < 16
  {
    if upper then "0123456789ABCDEF"[d] else "0123456789abcdef"[d]
  }

  function Remainder(value: nat, base: nat): (r: nat)
    requires base > 0
    ensures r < base
  {
    DivBounds(value, base);
    value - Quotient(value, base) * base
  }

  /** Most significant digit first. */
  function Numeral(value: nat, base: nat, upper: bool): (s: string)
    requires 2 <= base <= 16
    ensures s != []
    decreases value
  {
    if value < base then [DigitChar(value, upper)]
    else
      DivBounds(value, base);
      DivSmaller(value, base);
      Numeral(Quotient(value, base), base, upper) + [DigitChar(Remainder(value, base), upper)]
  }

  lemma {:induction false} DivSmaller(value: nat, base: nat)
    requires 2 <= base <= value
    ensures Quotient(value, base) < value
  {
    DivBounds(value, base);
    MulMono(2, base, Quotient(value, base));
  }

  /** Reading a numeral: the value of a digit character, in either case. */
  function DigitValue(c: char): nat {
    if '0' <= c <= '9' then c as nat - '0' as nat
    else if 'A' <= c <= 'F' then c as nat - 'A' as nat + 10
    else if 'a' <= c <= 'f' then c as nat - 'a' as nat + 10
    else 0
  }

  function Decode(s: string, base: nat): nat {
    if s == [] then 0 else Product(Decode(s[..|s| - 1], base), base) + DigitValue(s[|s| - 1])
  }

  lemma {:induction false} DigitDecodes(d: nat, upper: bool)
    requires d < 16
    ensures DigitValue(DigitChar(d, upper)) == d
    ensures DigitChar(d, upper) == '0' <==> d == 0
  {
  }

  /** A numeral decodes to its value and has no leading zero. */
  lemma {:induction false} NumeralDecodes(value: nat, base: nat, upper: bool)
    requires 2 <= base <= 16
    ensures Decode(Numeral(value, base, upper), base) == value
    ensures Numeral(value, base, upper)[0] == '0' <==> value == 0
    decreases value
  {
    var s := Numeral(value, base, upper);
    if value < base {
      DigitDecodes(value, upper);
      assert s[..|s| - 1] == [];
    } else {
      var q := Quotient(value, base);
      DivBounds(value, base);
      DivSmaller(value, base);
      NumeralDecodes(q, base, upper);
      DigitDecodes(Remainder(value, base), upper);
      assert s[..|s| - 1] == Numeral(q, base, upper);
    }
  }

  function Power(base: nat, k: nat): nat {
    if k == 0 then 1 else Product(Power(base, k - 1), base)
  }

  /** A numeral has at most `k` digits exactly when its value is below base^k. */
  lemma {:induction false} NumeralLength(value: nat, base: nat, upper: bool, k: nat)
    requires 2 <= base <= 16 && 0 < k
    ensures |Numeral(value, base, upper)| <= k <==> value < Power(base, k)
    decreases k
  {
    var q := Quotient(value, base);
    DivBounds(value, base);
    if k == 1 {
      assert Power(base, 1) == Product(Power(base, 0), base) == base;
    } else {
      PowerPositive(base, k - 1);
      if value >= base {
        DivSmaller(value, base);
        NumeralLength(q, base, upper, k - 1);
        DivBelow(value, Power(base, k - 1), base);
      } else {
        MulMono(1, Power(base, k - 1), base);
      }
    }
  }

  lemma {:induction false} PowerPositive(base: nat, k: nat)
    requires base >= 1
    ensures Power(base, k) >= 1
  {
    if k > 0 {
      PowerPositive(base, k - 1);
      MulMono(1, Power(base, k - 1), base);
    }
  }

  lemma {:induction false} DivBelow(a: nat, p: nat, d: nat)
    requires d > 0
    ensures Quotient(a, d) < p <==> a < Product(p, d)
  {
    DivBounds(a, d);
    var q := Quotient(a, d);
    if q < p {
      MulMono(q + 1, p, d);
      MulSplit(q, 1, d);
    } else {
      MulMono(p, q, d);
    }
  }

  /** In bases 10 and 16 a 64-bit value takes at most 20 and 16 digits, so the buffer never fills. */
  lemma {:induction false} NumeralFitsBuffer(value: nat, upper: bool)
    requires value < TWO64
    ensures |Numeral(value, 10, upper)| <= 20 < BUFFER_SIZE
    ensures |Numeral(value, 16, upper)| <= 16 < BUFFER_SIZE
  {
    assert Power(10, 4) == 10000;
    PowerSum(10, 4, 4);
    PowerSum(10, 8, 8);
    PowerSum(10, 16, 4);
    assert Power(16, 4) == 0x1_0000;
    PowerSum(16, 4, 4);
    PowerSum(16, 8, 8);
    NumeralLength(value, 10, upper, 20);
    NumeralLength(value, 16, upper, 16);
  }

  lemma {:induction false} PowerSum(base: nat, i: nat, j: nat)
    ensures Power(base, i + j) == Product(Power(base, i), Power(base, j))
  {
    if j > 0 {
      PowerSum(base, i, j - 1);
      ProductAssoc(Power(base, i), Power(base, j - 1), base);
    }
  }

  lemma {:induction false} ProductAssoc(a: nat, b: nat, c: nat)
    ensures Product(Product(a, b), c) == Product(a, Product(b, c))
  {
  }

  // ---------------------------------------------------------------- printing

  function Padding(width: int, length: nat, pad: char): string {
    seq(if width > length then width - length else 0, _ => pad)
  }

  /** The last `n` characters of a string. */
  function LastOf(s: string, n: nat): string {
    if |s| <= n then s else s[|s| - n..]
  }

  function Reverse(s: string): string {
    if s == [] then [] else Reverse(s[1..]) + [s[0]]
  }

  lemma {:induction false} ReverseAppend(s: string, c: char)
    ensures Reverse(s + [c]) == [c] + Reverse(s)
    ensures |Reverse(s)| == |s|
  {
    if s == [] {
      assert s + [c] == [c] && [c][1..] == [];
    } else {
      ReverseAppend(s[1..], c);
      assert (s + [c])[1..] == s[1..] + [c];
    }
  }

  /** The padding is nothing but padding characters. */
  lemma {:induction false} PaddingChars(width: int, length: nat, pad: char)
    ensures var p := Padding(width, length, pad);
      |p| == (if width > length then width - length else 0) && forall i :: 0 <= i < |p| ==> p[i] == pad
  {
  }

  /** A character of a numeral: a decimal digit, or a letter from A on, small unless capitals are wanted. */
  predicate IsDigit(c: char, upper: bool) {
    '0' <= c <= '9' || if upper then 'A' <= c <= 'F' else 'a' <= c <= 'f'
  }

  lemma {:induction false} NumeralDigits(value: nat, base: nat, upper: bool)
    requires 2 <= base <= 16
    ensures forall i :: 0 <= i < |Numeral(value, base, upper)| ==>
      IsDigit(Numeral(value, base, upper)[i], upper) && DigitValue(Numeral(value, base, upper)[i]) < base
    decreases value
  {
    if value < base {
      DigitIs(value, upper);
    } else {
      var q, s := Quotient(value, base), Numeral(value, base, upper);
      DivBounds(value, base);
      DivSmaller(value, base);
      NumeralDigits(q, base, upper);
      DigitIs(Remainder(value, base), upper);
      var n := |s| - 1;
      assert s[..n] == Numeral(q, base, upper);
      forall i | 0 <= i < |s|
        ensures IsDigit(s[i], upper) && DigitValue(s[i]) < base
      {
        if i < n {
          assert s[i] == s[..n][i];
        }
      }
    }
  }

  lemma {:induction false} DigitIs(d: nat, upper: bool)
    requires d < 16
    ensures IsDigit(DigitChar(d, upper), upper) && DigitValue(DigitChar(d, upper)) == d
  {
  }

  /** `print_uint_base`: the emitted characters are padding up to the width and the numeral, of which the
      buffer keeps the last 32 digits. */
  method PrintUint(value: nat, base: nat, width: int, pad: char, upper: bool) returns (out: string)
    requires value < TWO64 && 2 <= base <= 16
    ensures var digits := LastOf(Numeral(value, base, upper), 32);
      out == Padding(width, |digits|, pad) + digits
  {
    var buf := new char[BUFFER_SIZE];
    var i := 0;
    if value == 0 {
      buf[0] := '0';
      i := 1;
      assert Reverse(buf[..1]) == Reverse([]) + ['0'] == Numeral(0, base, upper);
    } else {
      i := FillDigits(value, base, upper, buf);
    }
    ghost var digits := Reverse(buf[..i]);
    ReverseLength(buf[..i]);
    out := Padding(width, i, pad);
    ghost var front := out;
    while i > 0
      invariant i <= BUFFER_SIZE && out + Reverse(buf[..i]) == front + digits
    {
      i := i - 1;
      assert buf[..i + 1] == buf[..i] + [buf[i]];
      ReverseAppend(buf[..i], buf[i]);
      out := out + [buf[i]];
    }
  }

  lemma {:induction false} ReverseLength(s: string)
    ensures |Reverse(s)| == |s|
  {
    ReverseAppend(s, '0');
  }

  /** The digits still to come: none once the value has reached 0. */
  function Front(value: nat, base: nat, upper: bool): string
    requires 2 <= base <= 16
  {
    if value == 0 then [] else Numeral(value, base, upper)
  }

  lemma {:induction false} FrontEmpty(value: nat, base: nat, upper: bool)
    requires 2 <= base <= 16
    ensures value == 0 <==> Front(value, base, upper) == []
    ensures value > 0 ==> Front(value, base, upper) == Numeral(value, base, upper)
  {
  }

  lemma {:induction false} MoveChar(x: string, c: char, y: string)
    ensures (x + [c]) + y == x + ([c] + y)
  {
  }

  lemma {:induction false} LastOfConcat(x: string, y: string)
    ensures |y| == BUFFER_SIZE ==> LastOf(x + y, BUFFER_SIZE) == y
    ensures x == [] && |y| <= BUFFER_SIZE ==> LastOf(x + y, BUFFER_SIZE) == y
  {
    assert (x + y)[|x|..] == y;
    assert x == [] ==> x + y == y;
  }

  method NextDigit(value: nat, base: nat) returns (q: nat, digit: nat)
    requires 0 < value < TWO64 && 2 <= base <= 16
    ensures q == Quotient(value, base) < value && digit == Remainder(value, base)
  {
    q, digit := DivMod(value, base);
    QuotientIs(value, base, q, digit);
  }

  /** The digit loop of `print_uint_base`: least significant digit first, stopping when the buffer is full. */
  method FillDigits(value0: nat, base: nat, upper: bool, buf: array<char>) returns (i: nat)
    requires 0 < value0 < TWO64 && 2 <= base <= 16 && buf.Length == BUFFER_SIZE
    modifies buf
    ensures i <= BUFFER_SIZE
    ensures Reverse(buf[..i]) == LastOf(Numeral(value0, base, upper), BUFFER_SIZE)
  {
    assert Reverse([]) == [];
    hide Numeral, Reverse, DigitChar, Quotient, Remainder;
    var value: nat := value0;
    i := 0;
    ghost var all := Numeral(value0, base, upper);
    FrontEmpty(value0, base, upper);
    hide Front;
    assert buf[..0] == [] && all + [] == all;
    while value > 0 && i < BUFFER_SIZE
      invariant i <= BUFFER_SIZE && value < TWO64
      invariant all == Front(value, base, upper) + Reverse(buf[..i])
      decreases value
    {
      ghost var before, v := buf[..i], value;
      var digit: nat;
      value, digit := NextDigit(value, base);
      NumeralStep(v, base, upper);
      buf[i] := DigitChar(digit, upper);
      i := i + 1;
      assert buf[..i] == before + [DigitChar(digit, upper)];
      ReverseAppend(before, DigitChar(digit, upper));
      MoveChar(Front(value, base, upper), DigitChar(digit, upper), Reverse(before));
    }
    ReverseLength(buf[..i]);
    LastOfConcat(Front(value, base, upper), Reverse(buf[..i]));
    FrontEmpty(value, base, upper);
  }

  lemma {:induction false} MulStrict(a: nat, b: nat, d: nat)
    ensures a < b ==> a * d + d <= b * d
  {
    if a < b {
      MulMono(a + 1, b, d);
      MulSplit(a, 1, d);
    }
  }

  lemma {:induction false} QuotientIs(v: nat, base: nat, q: nat, r: nat)
    requires base > 1 && v == q * base + r && r < base && v > 0
    ensures q == Quotient(v, base) && r == Remainder(v, base) && q < v
  {
    DivBounds(v, base);
    var k := Quotient(v, base);
    MulStrict(k, q, base);
    MulStrict(q, k, base);
    if q > 0 {
      MulMono(2, base, q);
    }
  }

  lemma {:induction false} NumeralStep(v: nat, base: nat, upper: bool)
    requires 2 <= base <= 16 && v > 0
    ensures Front(v, base, upper) == Front(Quotient(v, base), base, upper) + [DigitChar(Remainder(v, base), upper)]
  {
    DivBounds(v, base);
  }

  /** `print_int_decimal` */
  method PrintInt(value: int, width: int, pad: char) returns (out: string)
    requires -0x8000_0000_0000_0000 < value < 0x8000_0000_0000_0000
    ensures value >= 0 ==>
      out == Padding(width, |Numeral(value, 10, false)|, pad) + Numeral(value, 10, false)
    ensures value < 0 ==>
      out == "-" + Padding(if width > 0 then width - 1 else width, |Numeral(-value, 10, false)|, pad) + Numeral(-value, 10, false)
  {
    hide Numeral;
    var v, w := value, width;
    var sign := "";
    if value < 0 {
      sign := "-";
      if w > 0 { w := w - 1; }
      v := -value;
    }
    NumeralFitsBuffer(v, false);
    out := PrintUint(v, 10, w, pad, false);
    out := sign + out;
  }

  /** What reaches the screen in bases 10 and 16: max(width, digit count) characters, ending in digits
      that decode to the value and do not start with a superfluous zero. */
  lemma {:induction false} PrintedNumberDecodes(value: nat, base: nat, width: int, pad: char, upper: bool)
    requires value < TWO64 && (base == 10 || base == 16)
    ensures var digits := LastOf(Numeral(value, base, upper), 32);
      && Decode(digits, base) == value && (digits[0] == '0' <==> value == 0) && |digits| < 32
      && |Padding(width, |digits|, pad) + digits| == (if width > |digits| then width else |digits|)
  {
    NumeralFitsBuffer(value, upper);
    NumeralDecodes(value, base, upper);
  }

  /** In any base from 2 to 16 the buffer holds the whole numeral exactly when the value is below base^32. */
  lemma {:induction false} BufferHoldsNumeral(value: nat, base: nat, upper: bool)
    requires 2 <= base <= 16
    ensures LastOf(Numeral(value, base, upper), 32) == Numeral(value, base, upper) <==> value < Power(base, 32)
  {
    NumeralLength(value, base, upper, BUFFER_SIZE);
  }
}
