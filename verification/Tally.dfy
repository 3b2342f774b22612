/** Sums and counts over number sequences. */
module Tally {

  function Sum(f: seq<nat>): nat
  {
    if f == [] then 0 else Sum(f[..|f| - 1]) + f[|f| - 1]
  }

  function UsedCount(f: seq<nat>): nat
  {
    if f == [] then 0 else UsedCount(f[..|f| - 1]) + if f[|f| - 1] > 0 then 1 else 0
  }

  lemma {:induction false} ZeroSum(n: nat)
    ensures Sum(seq(n, _ => 0)) == 0
  {
    if n > 0 {
      assert seq(n, _ => 0)[..n - 1] == seq(n - 1, _ => 0);
      ZeroSum(n - 1);
    }
  }

  lemma {:induction false} SumUpdate(f: seq<nat>, i: nat, v: nat)
    requires i < |f|
    ensures Sum(f[i := v]) == Sum(f) - f[i] + v
  {
    var n := |f| - 1;
    if i == n {
      assert f[i := v][..n] == f[..n];
    } else {
      assert f[i := v][..n] == f[..n][i := v];
      SumUpdate(f[..n], i, v);
    }
  }

  lemma {:induction false} UsedUpdate(s: seq<nat>, i: nat, v: nat)
    requires i < |s|
    ensures UsedCount(s[i := v]) == UsedCount(s) - (if s[i] > 0 then 1 else 0) + if v > 0 then 1 else 0
  {
    var n := |s| - 1;
    if i == n {
      assert s[i := v][..n] == s[..n];
    } else {
      assert s[i := v][..n] == s[..n][i := v];
      UsedUpdate(s[..n], i, v);
    }
  }

  lemma {:induction false} SameUsedCount(s: seq<nat>, s': seq<nat>)
    requires |s| == |s'| && forall i :: 0 <= i < |s| ==> (s[i] > 0 <==> s'[i] > 0)
    ensures UsedCount(s) == UsedCount(s')
  {
    if s != [] {
      SameUsedCount(s[..|s| - 1], s'[..|s'| - 1]);
    }
  }

  function CountOf(s: seq<nat>, v: nat): nat
  {
    if s == [] then 0 else CountOf(s[..|s| - 1], v) + if s[|s| - 1] == v then 1 else 0
  }

  lemma {:induction false} CountConcat(a: seq<nat>, b: seq<nat>, v: nat)
    ensures CountOf(a + b, v) == CountOf(a, v) + CountOf(b, v)
  {
    if b == [] {
      assert a + b == a;
    } else {
      assert (a + b)[..|a + b| - 1] == a + b[..|b| - 1];
      CountConcat(a, b[..|b| - 1], v);
    }
  }

  lemma {:induction false} CountedOnce(s: seq<nat>, k: nat)
    requires k < |s|
    ensures CountOf(s, s[k]) > 0
  {
    if k < |s| - 1 {
      assert s[..|s| - 1][k] == s[k];
      CountedOnce(s[..|s| - 1], k);
    }
  }

  lemma OfOne(a: nat)
    ensures forall v :: CountOf([a], v) == if v == a then 1 else 0
  {
    assert [a][..0] == [];
  }

  lemma OfTwo(a: nat, b: nat)
    ensures forall v :: CountOf([a, b], v) == (if v == a then 1 else 0) + if v == b then 1 else 0
  {
    assert [a, b][..1] == [a];
    OfOne(a);
  }

  lemma {:induction false} CountUpdate(s: seq<nat>, i: nat, v: nat, w: nat)
    requires i < |s|
    ensures CountOf(s[i := v], w) == CountOf(s, w) - (if s[i] == w then 1 else 0) + if v == w then 1 else 0
  {
    var n := |s| - 1;
    if i == n {
      assert s[i := v][..n] == s[..n];
    } else {
      assert s[i := v][..n] == s[..n][i := v];
      CountUpdate(s[..n], i, v, w);
    }
  }

  lemma {:induction false} UsedAtMost(s: seq<nat>)
    ensures UsedCount(s) <= |s|
  {
    if s != [] {
      UsedAtMost(s[..|s| - 1]);
    }
  }

  lemma {:induction false} UsedConcat(a: seq<nat>, b: seq<nat>)
    ensures UsedCount(a + b) == UsedCount(a) + UsedCount(b)
  {
    if b == [] {
      assert a + b == a;
    } else {
      assert (a + b)[..|a + b| - 1] == a + b[..|b| - 1];
      UsedConcat(a, b[..|b| - 1]);
    }
  }

  /** No more entries are used than a set of indices holds that contains them all. */
  lemma {:induction false} UsedWithin(f: seq<nat>, s: set<nat>)
    requires forall i: nat :: i < |f| && f[i] > 0 ==> i in s
    ensures UsedCount(f) <= |s|
  {
    if f != [] {
      var n := |f| - 1;
      if f[n] > 0 {
        UsedWithin(f[..n], s - {n});
      } else {
        UsedWithin(f[..n], s);
      }
    }
  }

  /** Distinct numbers below n are at most n. */
  lemma DistinctBounded(chain: seq<nat>, n: nat)
    requires (forall k :: 0 <= k < |chain| ==> chain[k] < n) && forall j, k :: 0 <= j < k < |chain| ==> chain[j] != chain[k]
    ensures |chain| <= n
  {
    var s := set k | 0 <= k < |chain| :: chain[k];
    DistinctSize(chain);
    BelowSize(s, n);
  }

  lemma {:induction false} DistinctSize(chain: seq<nat>)
    requires forall j, k :: 0 <= j < k < |chain| ==> chain[j] != chain[k]
    ensures |set k | 0 <= k < |chain| :: chain[k]| == |chain|
  {
    if chain != [] {
      var n := |chain| - 1;
      DistinctSize(chain[..n]);
      var s, t := (set k | 0 <= k < |chain| :: chain[k]), set k | 0 <= k < n :: chain[..n][k];
      forall x | x in s ensures x in t + {chain[n]} {
        var k :| 0 <= k < |chain| && chain[k] == x;
        if k < n {
          assert chain[..n][k] == x;
        }
      }
      assert s == t + {chain[n]};
    }
  }

  lemma {:induction false} BelowSize(s: set<nat>, n: nat)
    requires forall x :: x in s ==> x < n
    ensures |s| <= n
  {
    if n == 0 {
      assert s == {};
    } else {
      BelowSize(s - {n - 1}, n - 1);
    }
  }
}
