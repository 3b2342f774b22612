/** Frequencies that are powers of two and add up to one: every run of the tree builder gives the same depths. */
module DyadicTrees {
  import opened BitStrings
  import opened Tally
  import opened HuffmanTree
  import opened TreeBuild
  import opened CodeLengths

  // ----- the weight of a set of roots -----

  ghost function Weight(keys: set<nat>, w: seq<nat>): nat
    requires forall x :: x in keys ==> x < |w|
  {
    if keys == {} then 0 else var x :| x in keys; w[x] + Weight(keys - {x}, w)
  }

  lemma {:induction false} WeightOf(keys: set<nat>, w: seq<nat>, x: nat)
    requires (forall y :: y in keys ==> y < |w|) && x in keys
    ensures Weight(keys, w) == w[x] + Weight(keys - {x}, w)
    decreases |keys|
  {
    var y :| y in keys && Weight(keys, w) == w[y] + Weight(keys - {y}, w);
    if y != x {
      WeightOf(keys - {y}, w, x);
      WeightOf(keys - {x}, w, y);
      assert keys - {x} - {y} == keys - {y} - {x};
    }
  }

  lemma {:induction false} WeightFrame(keys: set<nat>, w: seq<nat>, w': seq<nat>)
    requires forall x :: x in keys ==> x < |w| && x < |w'| && w[x] == w'[x]
    ensures Weight(keys, w) == Weight(keys, w')
    decreases |keys|
  {
    if x :| x in keys {
      WeightOf(keys, w, x);
      WeightOf(keys, w', x);
      WeightFrame(keys - {x}, w, w');
    }
  }

  lemma {:induction false} WeightMultiple(keys: set<nat>, w: seq<nat>, d: nat)
    requires d > 0 && forall x :: x in keys ==> x < |w| && w[x] % d == 0
    ensures Weight(keys, w) % d == 0
    decreases |keys|
  {
    if x :| x in keys {
      WeightOf(keys, w, x);
      WeightMultiple(keys - {x}, w, d);
      SumOfMultiples(w[x], Weight(keys - {x}, w), d);
    }
  }

  lemma SumOfMultiples(a: nat, b: nat, d: nat)
    requires d > 0 && a % d == 0 && b % d == 0
    ensures (a + b) % d == 0
  {
    MulAddLeft(a / d, b / d, d);
    DivModUnique(a / d + b / d, d, 0);
  }

  // ----- trees of equal halves -----

  /** Both children of every node are equally heavy. */
  ghost predicate Balanced(t: Tree, f: seq<nat>)
    requires WellFormed(t, |f|)
  {
    t.Node? ==> Mass(t.left, f, |f|) == Mass(t.right, f, |f|) && Balanced(t.left, f) && Balanced(t.right, f)
  }

  lemma {:induction false} BalancedDepth(t: Tree, f: seq<nat>, i: nat)
    requires WellFormed(t, |f|) && Balanced(t, f) && i in Leaves(t)
    ensures i < |f| && f[i] * Pow2(Depth(t, i)) == Mass(t, f, |f|)
  {
    if t.Node? {
      var c := if i in Leaves(t.left) then t.left else t.right;
      BalancedDepth(c, f, i);
      OneDeeper(f[i], Depth(c, i));
    }
  }

  lemma OneDeeper(m: nat, d: nat)
    ensures m * Pow2(1 + d) == 2 * (m * Pow2(d))
  {
  }

  ghost predicate Dyadic(m: nat) { exists k: nat :: m == Pow2(k) }

  /** The roots are balanced trees whose masses are powers of two and add up to one. */
  ghost predicate Even(g: Grove, f: seq<nat>, total: nat)
  {
    && g.Valid(f) && (forall x :: x in g.trees ==> x < |g.freq| && EvenRoot(g, f, x))
    && Weight(g.trees.Keys, g.freq) == Pow2(total)
  }

  ghost predicate EvenRoot(g: Grove, f: seq<nat>, x: nat)
    requires x in g.trees && x < |g.freq|
  {
    Dyadic(g.freq[x]) && WellFormed(g.trees[x], |f|) && Balanced(g.trees[x], f) && g.freq[x] == Mass(g.trees[x], f, |f|)
  }

  lemma PowerMultiple(m: nat, j: nat)
    requires Dyadic(m) && m > Pow2(j)
    ensures m % Pow2(j + 1) == 0 && Pow2(j + 1) > 0
  {
    var k: nat :| m == Pow2(k);
    if k <= j {
      Pow2Monotone(k, j);
    }
    Pow2Add(k - (j + 1), j + 1);
    DivModUnique(Pow2(k - (j + 1)), Pow2(j + 1), 0);
  }

  /** Weighing multiples of 2^(j+1) apart, no single root of weight 2^j is left over. */
  lemma NoOddRoot(keys: set<nat>, w: seq<nat>, a: nat, j: nat, total: nat)
    requires (forall x :: x in keys ==> x < |w|) && a in keys && w[a] == Pow2(j) && Weight(keys, w) == Pow2(total) > Pow2(j)
    ensures !(forall y :: y in keys - {a} ==> w[y] % Pow2(j + 1) == 0)
  {
    var d := Pow2(j + 1);
    assert d == 2 * Pow2(j) && Pow2(j) > 0;
    WeightOf(keys, w, a);
    PowerMultiple(Pow2(total), j);
    if forall y :: y in keys - {a} ==> w[y] % d == 0 {
      WeightMultiple(keys - {a}, w, d);
      OddLeft(w[a], Weight(keys - {a}, w), d);
    }
  }

  lemma OddLeft(a: nat, b: nat, d: nat)
    requires 0 < a < d && b % d == 0
    ensures (a + b) % d != 0
  {
    DivModUnique(b / d, d, a);
  }

  /** The two lightest roots are equally heavy. */
  lemma EqualHalves(g: Grove, f: seq<nat>, a: nat, b: nat, total: nat)
    requires Even(g, f, total) && Lightest(g, f, a, b)
    ensures g.freq[a] == g.freq[b]
  {
    hide Grove.Valid, Pow2, Balanced, WellFormed, Mass;
    var keys, w := g.trees.Keys, g.freq;
    if w[a] != w[b] {
      assert EvenRoot(g, f, a) && EvenRoot(g, f, b);
      var j: nat :| w[a] == Pow2(j);
      WeightOf(keys, w, a);
      WeightOf(keys - {a}, w, b);
      forall y | y in keys - {a} ensures w[y] % Pow2(j + 1) == 0 {
        assert EvenRoot(g, f, y);
        PowerMultiple(w[y], j);
      }
      NoOddRoot(keys, w, a, j, total);
    }
  }

  lemma JoinedDyadic(m: nat)
    requires Dyadic(m)
    ensures Dyadic(m + m)
  {
    var k: nat :| m == Pow2(k);
    assert m + m == Pow2(k + 1);
  }

  lemma JoinedWeight(keys: set<nat>, w: seq<nat>, a: nat, b: nat, n: nat)
    requires (forall x :: x in keys ==> x < |w|) && a in keys && b in keys && a != b && n !in keys && n < |w|
    ensures Weight(keys - {a, b} + {n}, w[n := w[a] + w[b]]) == Weight(keys, w)
  {
    var rest := keys - {a, b};
    var w' := w[n := w[a] + w[b]];
    WeightOf(keys, w, a);
    WeightOf(keys - {a}, w, b);
    assert keys - {a} - {b} == rest;
    WeightOf(rest + {n}, w', n);
    assert rest + {n} - {n} == rest;
    WeightFrame(rest, w, w');
  }

  lemma JoinEven(g: Grove, f: seq<nat>, a: nat, b: nat, total: nat)
    requires Even(g, f, total) && Lightest(g, f, a, b)
    ensures Even(g.Join(a, b), f, total)
  {
    hide Grove.Valid, Pow2, Weight, EvenRoot;
    EqualHalves(g, f, a, b, total);
    JoinValid(g, f, a, b);
    var n, g' := g.next - 1, g.Join(a, b);
    JoinedWeight(g.trees.Keys, g.freq, a, b, n);
    forall x | x in g'.trees ensures x < |g'.freq| && EvenRoot(g', f, x) {
      JoinedRoot(g, f, a, b, x, total);
    }
  }

  lemma JoinedRoot(g: Grove, f: seq<nat>, a: nat, b: nat, x: nat, total: nat)
    requires Even(g, f, total) && Lightest(g, f, a, b) && g.freq[a] == g.freq[b] && x in g.Join(a, b).trees
    requires g.next - 1 !in g.trees
    ensures x < |g.Join(a, b).freq| && EvenRoot(g.Join(a, b), f, x)
  {
    hide Grove.Valid, Dyadic;
    JoinOk(g, f, a, b, x);
    if x == g.next - 1 {
      assert EvenRoot(g, f, a) && EvenRoot(g, f, b);
      JoinedDyadic(g.freq[a]);
    } else {
      assert EvenRoot(g, f, x);
    }
  }

  lemma {:induction false} EvenReaches(g: Grove, f: seq<nat>, t: Tree, total: nat)
    requires Even(g, f, total) && Reaches(g, f, t)
    ensures WellFormed(t, |f|) && Balanced(t, f) && Mass(t, f, |f|) == Pow2(total)
    decreases g.next
  {
    hide Grove.Valid, Pow2;
    if g.trees.Keys == {Id(t)} && g.trees[Id(t)] == t {
      assert EvenRoot(g, f, Id(t));
      WeightOf(g.trees.Keys, g.freq, Id(t));
      assert g.trees.Keys - {Id(t)} == {};
    } else {
      var a, b :| Lightest(g, f, a, b) && Reaches(g.Join(a, b), f, t);
      JoinEven(g, f, a, b, total);
      JoinFields(g, f, a, b);
      EvenReaches(g.Join(a, b), f, t, total);
    }
  }

  // ----- the start -----

  lemma {:induction false} SeedWeight(f: seq<nat>, w: seq<nat>)
    requires |f| <= |w| && w[..|f|] == f
    ensures (forall x :: x in UsedSet(f) ==> x < |w|) && Weight(UsedSet(f), w) == Sum(f)
  {
    if f == [] {
      assert UsedSet(f) == {};
    } else {
      var n := |f| - 1;
      assert w[..n] == f[..n];
      SeedWeight(f[..n], w);
      if f[n] > 0 {
        assert UsedSet(f) == UsedSet(f[..n]) + {n};
        assert n !in UsedSet(f[..n]);
        assert UsedSet(f) - {n} == UsedSet(f[..n]);
        WeightOf(UsedSet(f), w, n);
        assert w[n] == w[..|f|][n];
      } else {
        assert UsedSet(f) == UsedSet(f[..n]);
      }
    }
  }

  lemma SeedlingsEven(f: seq<nat>, total: nat)
    requires UsedCount(f) >= 1 && Sum(f) == Pow2(total) && forall i :: 0 <= i < |f| && f[i] > 0 ==> Dyadic(f[i])
    ensures Even(Seedlings(f), f, total)
  {
    hide UsedCount, UsedList, Grove.Valid, Sum, Pow2, Dyadic;
    var g := Seedlings(f);
    SeedlingsValid(f);
    assert g.freq[..|f|] == f;
    SeedWeight(f, g.freq);
    assert g.trees.Keys == UsedSet(f);
    forall x | x in g.trees ensures x < |g.freq| && EvenRoot(g, f, x) {
      assert g.freq[x] == f[x];
    }
  }

  /** A symbol's depth is the logarithm of its share, whatever ties were decided. */
  lemma DyadicDepths(f: seq<nat>, depths: seq<nat>, total: nat)
    requires UsedCount(f) >= 1 && Sum(f) == Pow2(total) && forall i :: 0 <= i < |f| && f[i] > 0 ==> Dyadic(f[i])
    requires HuffmanDepths(f, depths)
    ensures forall i: nat :: i < |f| ==> if f[i] > 0 then f[i] * Pow2(depths[i]) == Pow2(total) else depths[i] == 0
  {
    hide UsedCount, Sum, Pow2, Dyadic, Reaches, Seedlings, Leaves, Depth;
    var t: Tree :| Reaches(Seedlings(f), f, t) && DepthsOf(t, f, depths);
    SeedlingsEven(f, total);
    EvenReaches(Seedlings(f), f, t, total);
    forall i: nat | i < |f| && f[i] > 0 ensures f[i] * Pow2(depths[i]) == Pow2(total) {
      BalancedDepth(t, f, i);
    }
  }
}
