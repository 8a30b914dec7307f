/** The file allocation table as a sequence of 16-bit entries: following links, freeing a chain,
    searching for a run of free clusters and linking a run. */
module FatTable {

  /** The guard of the chain walks in fat.c: a cluster number that may be followed. */
  predicate Link(c: nat) {
    2 <= c < 0xFFF8
  }

  // ---------------------------------------------------------------- following links

  /** One step along the table. Anything that cannot be followed steps to 0, which is no link. */
  function Step(t: seq<nat>, c: nat): nat {
    if Link(c) && c < |t| then t[c] else 0
  }

  function Walk(t: seq<nat>, c: nat, i: nat): nat {
    if i == 0 then c else Step(t, Walk(t, c, i - 1))
  }

  /** Cluster `c` is met when the links are followed from `start`. The table is arbitrary: it may be
      cyclic or cross-linked. */
  ghost predicate Reachable(t: seq<nat>, start: nat, c: nat) {
    Link(c) && exists i: nat :: Walk(t, start, i) == c
  }

  /** The table in which exactly the clusters reachable from `start` have been zeroed. */
  ghost function Freed(t: seq<nat>, start: nat): (r: seq<nat>)
    ensures |r| == |t|
  {
    seq(|t|, c requires 0 <= c < |t| => if Reachable(t, start, c) then 0 else t[c])
  }

  lemma {:induction false} WalkCompose(t: seq<nat>, c: nat, i: nat, j: nat)
    ensures Walk(t, Walk(t, c, i), j) == Walk(t, c, i + j)
  {
    if j > 0 {
      WalkCompose(t, c, i, j - 1);
    }
  }

  lemma {:induction false} WalkStaysZero(t: seq<nat>, c: nat, i: nat)
    requires !Link(c) && i > 0
    ensures Walk(t, c, i) == 0
  {
    if i > 1 {
      WalkStaysZero(t, c, i - 1);
    }
  }

  /** After `s` has been zeroed the walk from its old successor follows the old walk until it dies. */
  lemma {:induction false} WalkAfterZeroing(t: seq<nat>, s: nat, i: nat)
    requires Link(s) && s < |t|
    ensures Walk(t[s := 0], t[s], i) == Walk(t, s, i + 1) || Walk(t[s := 0], t[s], i) == 0
  {
    if i == 0 {
      assert Walk(t, s, 1) == Step(t, Walk(t, s, 0));
    } else {
      WalkAfterZeroing(t, s, i - 1);
    }
  }

  lemma {:induction false} WalkAvoiding(t: seq<nat>, s: nat, i: nat)
    requires Link(s) && s < |t|
    requires forall k :: 1 <= k <= i ==> Walk(t, s, k) != s
    ensures Walk(t[s := 0], t[s], i) == Walk(t, s, i + 1)
  {
    if i == 0 {
      assert Walk(t, s, 1) == Step(t, Walk(t, s, 0));
    } else {
      WalkAvoiding(t, s, i - 1);
      assert Walk(t, s, i) != s;
    }
  }

  /** Every cluster other than `s` that is reachable from `s` is still reachable once `s` is zeroed:
      cut the walk at its last visit to `s`. */
  lemma {:induction false} ReachAfterZeroing(t: seq<nat>, s: nat, c: nat, i: nat)
    requires Link(s) && s < |t|
    requires Walk(t, s, i) == c && Link(c) && c != s
    ensures Reachable(t[s := 0], t[s], c)
    decreases i
  {
    if k :| 1 <= k < i && Walk(t, s, k) == s {
      WalkCompose(t, s, k, i - k);
      ReachAfterZeroing(t, s, c, i - k);
    } else {
      WalkAvoiding(t, s, i - 1);
    }
  }

  /** One iteration of the freeing loop, on any table. */
  lemma {:induction false} FreedStep(t: seq<nat>, s: nat)
    requires 2 <= s < 0xFFF8 && s < |t|
    ensures Freed(t, s) == Freed(t[s := 0], t[s])
  {
    var t' := t[s := 0];
    forall c | 0 <= c < |t|
      ensures Freed(t, s)[c] == Freed(t', t[s])[c]
    {
      if c == s {
        assert Walk(t, s, 0) == s;
      } else if Reachable(t, s, c) {
        var i: nat :| Walk(t, s, i) == c;
        ReachAfterZeroing(t, s, c, i);
      } else if Reachable(t', t[s], c) {
        var i: nat :| Walk(t', t[s], i) == c;
        WalkAfterZeroing(t, s, i);
        assert false;
      }
    }
  }

  lemma {:induction false} FreedNothing(t: seq<nat>, s: nat)
    requires s < 2 || s >= 0xFFF8
    ensures Freed(t, s) == t
  {
    forall c | 0 <= c < |t|
      ensures !Reachable(t, s, c)
    {
      if Reachable(t, s, c) {
        var i: nat :| Walk(t, s, i) == c;
        if i > 0 {
          WalkStaysZero(t, s, i);
        }
        assert false;
      }
    }
  }

  /** Reachability from the successor in the zeroed table stays inside the old reachable set. */
  lemma {:induction false} ReachableShrinks(t: seq<nat>, s: nat, c: nat)
    requires Link(s) && s < |t|
    requires Reachable(t[s := 0], t[s], c)
    ensures Reachable(t, s, c)
  {
    var i: nat :| Walk(t[s := 0], t[s], i) == c;
    WalkAfterZeroing(t, s, i);
  }

  // ---------------------------------------------------------------- well-formed chains

  /** `n` clusters, all below `bound`, starting at `c` and closed by an end marker. The empty chain is
      cluster number 0. */
  predicate ChainOk(t: seq<nat>, bound: nat, c: nat, n: nat)
    requires bound <= |t|
    decreases n
  {
    if n == 0 then c == 0
    else
      && 2 <= c < bound
      && if n == 1 then t[c] >= 0xFFF8 else ChainOk(t, bound, t[c], n - 1)
  }

  function Chain(t: seq<nat>, c: nat, n: nat): (r: seq<nat>)
    ensures |r| == n
    decreases n
  {
    if n == 0 then [] else [c] + Chain(t, Step(t, c), n - 1)
  }

  lemma {:induction false} WalkHead(t: seq<nat>, c: nat, i: nat)
    requires i > 0
    ensures Walk(t, c, i) == Walk(t, Step(t, c), i - 1)
  {
    assert Walk(t, c, 1) == Step(t, Walk(t, c, 0)) == Step(t, c);
    WalkCompose(t, c, 1, i - 1);
  }

  lemma {:induction false} ChainHead(t: seq<nat>, bound: nat, c: nat, n: nat)
    requires bound <= |t| && bound <= 0xFFF8 && ChainOk(t, bound, c, n) && n > 1
    ensures 2 <= c < bound && Step(t, c) == t[c] && ChainOk(t, bound, t[c], n - 1)
    ensures forall i :: 0 < i < n ==> Chain(t, c, n)[i] == Chain(t, t[c], n - 1)[i - 1]
  {
  }

  lemma {:induction false} ChainAt(t: seq<nat>, bound: nat, c: nat, n: nat, i: nat)
    requires bound <= |t| && bound <= 0xFFF8 && ChainOk(t, bound, c, n) && i < n
    ensures Chain(t, c, n)[i] == Walk(t, c, i)
    ensures 2 <= Walk(t, c, i) < bound && ChainOk(t, bound, Walk(t, c, i), n - i)
    decreases n
  {
    if i > 0 {
      ChainHead(t, bound, c, n);
      hide Walk, Chain, ChainOk, Step;
      ChainAt(t, bound, t[c], n - 1, i - 1);
      WalkHead(t, c, i);
    }
  }

  lemma {:induction false} ChainLengthUnique(t: seq<nat>, bound: nat, c: nat, m: nat, n: nat)
    requires bound <= |t| && bound <= 0xFFF8
    requires ChainOk(t, bound, c, m) && ChainOk(t, bound, c, n)
    ensures m == n
    decreases m
  {
    if m > 1 && n > 1 {
      ChainLengthUnique(t, bound, t[c], m - 1, n - 1);
    }
  }

  /** Length of the chain that starts at `c`, or 0 when it does not end properly. */
  ghost function EndLength(t: seq<nat>, bound: nat, c: nat): nat
    requires bound <= |t|
  {
    if exists n: nat :: ChainOk(t, bound, c, n) then
      var n: nat :| ChainOk(t, bound, c, n);
      n
    else 0
  }

  lemma {:induction false} EndLengthIs(t: seq<nat>, bound: nat, c: nat, n: nat)
    requires bound <= |t| && bound <= 0xFFF8 && ChainOk(t, bound, c, n)
    ensures EndLength(t, bound, c) == n
  {
    ChainLengthUnique(t, bound, c, EndLength(t, bound, c), n);
  }

  /** Where links were only cut, whatever still ends properly is as it was. */
  lemma {:induction false} ChainBefore(t: seq<nat>, t': seq<nat>, bound: nat, c: nat, n: nat)
    requires |t'| == |t| && bound <= |t| && bound <= 0xFFF8 && ChainOk(t', bound, c, n)
    requires forall x :: 0 <= x < |t| ==> t'[x] == t[x] || t'[x] == 0
    ensures ChainOk(t, bound, c, n) && forall x :: x in Chain(t, c, n) ==> x < |t| && t'[x] != 0
  {
    ChainBounds(t', bound, c, n);
    forall x | x in Chain(t', c, n)
      ensures x < |t'| && t[x] == t'[x]
    {
    }
    ChainFrame(t', t, bound, c, n);
  }

  /** A chain that ends is acyclic. */
  lemma {:induction false} ChainDistinct(t: seq<nat>, bound: nat, c: nat, n: nat)
    requires bound <= |t| && bound <= 0xFFF8 && ChainOk(t, bound, c, n)
    ensures forall i, j :: 0 <= i < j < n ==> Chain(t, c, n)[i] != Chain(t, c, n)[j]
  {
    forall i, j | 0 <= i < j < n
      ensures Chain(t, c, n)[i] != Chain(t, c, n)[j]
    {
      ChainAt(t, bound, c, n, i);
      ChainAt(t, bound, c, n, j);
      if Walk(t, c, i) == Walk(t, c, j) {
        ChainLengthUnique(t, bound, Walk(t, c, i), n - i, n - j);
        assert false;
      }
    }
  }

  /** On a well-formed chain, reachable means member. */
  lemma {:induction false} ChainIsReachable(t: seq<nat>, bound: nat, c: nat, n: nat, x: nat)
    requires bound <= |t| && bound <= 0xFFF8 && ChainOk(t, bound, c, n)
    ensures Reachable(t, c, x) <==> x in Chain(t, c, n)
  {
    if x in Chain(t, c, n) {
      var i :| 0 <= i < n && Chain(t, c, n)[i] == x;
      ChainAt(t, bound, c, n, i);
    }
    if Reachable(t, c, x) {
      var i: nat :| Walk(t, c, i) == x;
      if i < n {
        ChainAt(t, bound, c, n, i);
        assert Chain(t, c, n)[i] == x;
      } else if n == 0 {
        if i > 0 { WalkStaysZero(t, c, i); }
        assert false;
      } else {
        ChainAt(t, bound, c, n, n - 1);
        assert !Link(Walk(t, c, n));
        if i > n {
          WalkStaysZero(t, Walk(t, c, n), i - n);
          WalkCompose(t, c, n, i - n);
        }
        assert false;
      }
    }
  }

  lemma {:induction false} FreeStartBreaksChain(t: seq<nat>, bound: nat, c: nat, n: nat)
    requires bound <= |t| && c < |t| && t[c] == 0 && (n > 0 || c > 0)
    ensures !ChainOk(t, bound, c, n)
  {
  }

  /** A chain survives any change of the table away from its own clusters. */
  lemma {:induction false} ChainFrame(t: seq<nat>, t': seq<nat>, bound: nat, c: nat, n: nat)
    requires |t'| == |t| && bound <= |t| && bound <= 0xFFF8 && ChainOk(t, bound, c, n)
    requires forall x :: x in Chain(t, c, n) ==> x < |t| && t'[x] == t[x]
    ensures ChainOk(t', bound, c, n) && Chain(t', c, n) == Chain(t, c, n)
    decreases n
  {
    if n > 0 {
      assert c == Chain(t, c, n)[0];
      assert c in Chain(t, c, n);
      if n == 1 {
        assert Chain(t', c, 1) == [c] + Chain(t', Step(t', c), 0);
      } else {
        var rest := Chain(t, t[c], n - 1);
        assert Chain(t, c, n) == [c] + rest;
        forall x | x in rest
          ensures x < |t| && t'[x] == t[x]
        {
          assert x in [c] + rest;
        }
        ChainFrame(t, t', bound, t[c], n - 1);
      }
    }
  }

  lemma {:induction false} ChainBounds(t: seq<nat>, bound: nat, c: nat, n: nat)
    requires bound <= |t| && bound <= 0xFFF8 && ChainOk(t, bound, c, n)
    ensures forall x :: x in Chain(t, c, n) ==> 2 <= x < bound && t[x] != 0
  {
    forall x | x in Chain(t, c, n)
      ensures 2 <= x < bound && t[x] != 0
    {
      var i :| 0 <= i < n && Chain(t, c, n)[i] == x;
      ChainAt(t, bound, c, n, i);
    }
  }

  // ---------------------------------------------------------------- runs of free clusters

  predicate RunFree(t: seq<nat>, c: nat, n: nat)
    requires c + n <= |t|
  {
    forall i :: c <= i < c + n ==> t[i] == 0
  }

  /** `r` is the lowest start of `n` consecutive free clusters inside [2, limit), or 0 when none exists. */
  ghost predicate IsFirstRun(t: seq<nat>, limit: nat, n: nat, r: nat)
    requires limit <= |t|
  {
    && (r == 0 ==> forall c :: 2 <= c && c + n <= limit ==> !RunFree(t, c, n))
    && (r != 0 ==>
          && 2 <= r && r + n <= limit && RunFree(t, r, n)
          && forall c :: 2 <= c < r ==> !RunFree(t, c, n))
  }

  ghost function FirstRunFrom(t: seq<nat>, limit: nat, n: nat, c: nat): (r: nat)
    requires limit <= |t| && 2 <= c
    requires forall b :: 2 <= b < c && b + n <= limit ==> !RunFree(t, b, n)
    ensures IsFirstRun(t, limit, n, r)
    decreases limit - c
  {
    if c + n > limit then 0
    else if RunFree(t, c, n) then c
    else FirstRunFrom(t, limit, n, c + 1)
  }

  ghost function FirstRun(t: seq<nat>, limit: nat, n: nat): (r: nat)
    requires limit <= |t|
    ensures IsFirstRun(t, limit, n, r)
  {
    FirstRunFrom(t, limit, n, 2)
  }

  lemma FirstRunUnique(t: seq<nat>, limit: nat, n: nat, r: nat)
    requires limit <= |t| && IsFirstRun(t, limit, n, r)
    ensures r == FirstRun(t, limit, n)
  {
    var q := FirstRun(t, limit, n);
    assert r != 0 ==> RunFree(t, r, n);
    assert q != 0 ==> RunFree(t, q, n);
  }

  // ---------------------------------------------------------------- linking a run

  /** The table after `n` clusters from `c` on have been linked in order and closed with 0xFFFF. */
  function LinkRun(t: seq<nat>, c: nat, n: nat): (r: seq<nat>)
    ensures |r| == |t|
  {
    seq(|t|, x requires 0 <= x < |t| =>
      if c <= x < c + n then (if x + 1 == c + n then 0xFFFF else x + 1) else t[x])
  }

  function Consecutive(c: nat, n: nat): (r: seq<nat>)
    ensures |r| == n && forall k :: 0 <= k < n ==> r[k] == c + k
  {
    seq(n, k => c + k)
  }

  lemma {:induction false} ConsecutiveTail(c: nat, n: nat)
    requires n > 0
    ensures Consecutive(c, n)[0] == c && Consecutive(c, n)[1..] == Consecutive(c + 1, n - 1)
  {
  }

  lemma {:induction false} LinkedRunIsChain(t: seq<nat>, bound: nat, c: nat, n: nat, i: nat)
    requires bound <= |t| && 2 <= c && c + n <= bound <= 0xFFF8 && i < n
    ensures ChainOk(LinkRun(t, c, n), bound, c + i, n - i)
    ensures Chain(LinkRun(t, c, n), c + i, n - i) == Consecutive(c + i, n - i)
    decreases n - i
  {
    var r := LinkRun(t, c, n);
    if i + 1 < n {
      LinkedRunIsChain(t, bound, c, n, i + 1);
      assert r[c + i] == c + i + 1;
    } else {
      assert Chain(r, c + i, 1) == [c + i] + Chain(r, Step(r, c + i), 0);
    }
  }

  // ---------------------------------------------------------------- free clusters

  function FreeSet(t: seq<nat>, bound: nat): set<nat>
    requires bound <= |t|
  {
    set c | 2 <= c < bound && t[c] == 0
  }

  function Elements(s: seq<nat>): set<nat> {
    set x | x in s
  }

  lemma {:induction false} DistinctCardinality(s: seq<nat>)
    requires forall i, j :: 0 <= i < j < |s| ==> s[i] != s[j]
    ensures |Elements(s)| == |s|
  {
    if s != [] {
      var rest := s[1..];
      DistinctCardinality(rest);
      assert s == [s[0]] + rest;
      assert s[0] !in rest;
      assert Elements(s) == Elements(rest) + {s[0]};
    }
  }

  /** Freeing a chain adds exactly its clusters to the free set. */
  lemma {:induction false} FreeingAdds(t: seq<nat>, bound: nat, c: nat, n: nat)
    requires bound <= |t| && bound <= 0xFFF8 && ChainOk(t, bound, c, n)
    ensures |FreeSet(Freed(t, c), bound)| == |FreeSet(t, bound)| + n
    ensures forall x :: 0 <= x < |t| ==> Freed(t, c)[x] == (if x in Chain(t, c, n) then 0 else t[x])
  {
    forall x | 0 <= x < |t|
      ensures Freed(t, c)[x] == (if x in Chain(t, c, n) then 0 else t[x])
    {
      ChainIsReachable(t, bound, c, n, x);
    }
    ChainBounds(t, bound, c, n);
    ChainDistinct(t, bound, c, n);
    DistinctCardinality(Chain(t, c, n));
    FreedSet(t, Freed(t, c), bound, Chain(t, c, n));
  }

  lemma FreedSet(t: seq<nat>, t': seq<nat>, bound: nat, ch: seq<nat>)
    requires bound <= |t| == |t'|
    requires forall x :: x in ch ==> 2 <= x < bound && t[x] != 0
    requires forall x :: 0 <= x < |t| ==> t'[x] == (if x in ch then 0 else t[x])
    ensures |FreeSet(t', bound)| == |FreeSet(t, bound)| + |Elements(ch)|
  {
    assert FreeSet(t', bound) == FreeSet(t, bound) + Elements(ch);
    assert FreeSet(t, bound) !! Elements(ch);
  }

  /** Linking a free run takes exactly its clusters from the free set. */
  lemma {:induction false} LinkingTakes(t: seq<nat>, bound: nat, c: nat, n: nat)
    requires bound <= |t| && 2 <= c && c + n <= bound && RunFree(t, c, n)
    ensures |FreeSet(LinkRun(t, c, n), bound)| == |FreeSet(t, bound)| - n
  {
    var run := Consecutive(c, n);
    assert forall x: nat :: x in run <==> c <= x < c + n by {
      forall x: nat | c <= x < c + n
        ensures x in run
      {
        assert run[x - c] == x;
      }
    }
    DistinctCardinality(run);
    FreedSet(LinkRun(t, c, n), t, bound, run);
  }
}
