/** Facts about slices that the solver is better told than left to find. */
module Sequences {

  lemma {:induction false} Associate<T>(a: seq<T>, b: seq<T>, c: seq<T>)
    ensures a + (b + c) == a + b + c
  {
  }

  lemma {:induction false} SliceSplit<T>(q: seq<T>, a: nat, b: nat, c: nat)
    requires a <= b <= c <= |q|
    ensures q[a..c] == q[a..b] + q[b..c]
  {
  }

  lemma {:induction false} PrefixSlice<T>(q: seq<T>, n: nat, a: nat, b: nat)
    requires a <= b <= n <= |q|
    ensures q[..n][a..b] == q[a..b]
  {
    var x, y := q[..n][a..b], q[a..b];
    assert forall k :: 0 <= k < b - a ==> x[k] == q[..n][a + k] == y[k];
  }

  lemma {:induction false} SubSlice<T>(q: seq<T>, p: nat, n: nat, lo: nat, k: nat)
    requires p + n <= |q| && lo + k <= n
    ensures q[p..p + n][lo..lo + k] == q[p + lo..p + lo + k]
  {
    var x, y := q[p..p + n][lo..lo + k], q[p + lo..p + lo + k];
    forall j | 0 <= j < k
      ensures x[j] == y[j]
    {
      assert x[j] == q[p..p + n][lo + j] == q[p + lo + j];
    }
  }

  lemma {:induction false} SameSlice<T>(q: seq<T>, q': seq<T>, a: nat, b: nat)
    requires a <= b <= |q| == |q'| && forall k :: a <= k < b ==> q'[k] == q[k]
    ensures q'[a..b] == q[a..b]
  {
    var x, y := q'[a..b], q[a..b];
    assert forall k :: 0 <= k < b - a ==> x[k] == q'[a + k] == q[a + k] == y[k];
  }
}
