/** The few facts about products and quotients of variables that the other modules use. */
module Arithmetic {

  /** One more than the largest `u32int`. */
  const TWO32: nat := 0x1_0000_0000

  function Min(a: nat, b: nat): nat {
    if a < b then a else b
  }

  /** Unsigned division. */
  function Quotient(a: nat, d: nat): (q: nat)
    requires d > 0
  {
    a / d
  }

  function Product(a: nat, b: nat): nat {
    a * b
  }

  lemma {:induction false} DivBounds(a: nat, d: nat)
    requires d > 0
    ensures Quotient(a, d) * d <= a < Quotient(a, d) * d + d
    ensures a < d ==> Quotient(a, d) == 0
    ensures a >= d ==> Quotient(a, d) >= 1
  {
    assert a == a / d * d + a % d;
    if a >= d && a / d == 0 {
      assert false;
    }
  }

  lemma {:induction false} MulStep(n: nat, d: nat)
    requires n > 0
    ensures n * d == d + (n - 1) * d
  {
  }

  lemma {:induction false} MulMono(a: nat, b: nat, d: nat)
    requires a <= b
    ensures a * d <= b * d
  {
  }

  lemma {:induction false} MulSplit(a: nat, b: nat, d: nat)
    ensures (a + b) * d == a * d + b * d
  {
  }

  lemma {:induction false} MulAssoc(a: nat, b: nat, d: nat)
    ensures a * (b * d) == b * (a * d)
  {
  }
}
