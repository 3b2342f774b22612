/** Building the Huffman tree with an index heap, and reading code lengths off the father links. */
module TreeBuild {
  import opened HuffmanHeap
  import opened HuffmanTree
  import opened Tally

  /** What the builder's arrays say about one tree t, whose root is x. */
  ghost predicate TreeOk(t: Tree, x: nat, f: seq<nat>, father: seq<int>, freq: seq<nat>, next: nat, m: nat)
  {
    && Id(t) == x && WellFormed(t, |f|) && (t.Node? ==> next <= x)
    && Linked(father, t) && Greedy(t, f, |f|)
    && x < |freq| == |father| && freq[x] == Mass(t, f, |f|) && freq[x] >= m
    && ChildrenAtMost(t, f, |f|, m)
  }

  lemma RootFacts(t: Tree, x: nat, f: seq<nat>, father: seq<int>, freq: seq<nat>, next: nat, m: nat)
    requires TreeOk(t, x, f, father, freq, next, m) && |f| <= next
    ensures x in Nodes(t) && (forall y :: y in Nodes(t) ==> y < |f| || next <= y)
    ensures x < |freq| && Leaves(t) <= Nodes(t)
  {
    NodesOf(t, |f|);
  }

  lemma NewTree(ta: Tree, tb: Tree, a: nat, b: nat, f: seq<nat>, father: seq<int>, freq: seq<nat>, next: nat, m: nat)
    requires TreeOk(ta, a, f, father, freq, next, m) && TreeOk(tb, b, f, father, freq, next, m)
    requires Nodes(ta) !! Nodes(tb) && freq[a] <= freq[b] && |f| < next <= |freq|
    ensures var n := next - 1;
            TreeOk(Node(n, ta, tb), n, f, father[a := n][b := 0 - n], freq[n := freq[a] + freq[b]], n, freq[b])
  {
    hide Linked, Nodes;
    var n := next - 1;
    RootFacts(ta, a, f, father, freq, next, m);
    RootFacts(tb, b, f, father, freq, next, m);
    NewLinks(ta, tb, a, b, |f|, father, n);
    assert WellFormed(Node(n, ta, tb), |f|);
    assert Greedy(Node(n, ta, tb), f, |f|);
  }

  lemma NewLinks(ta: Tree, tb: Tree, a: nat, b: nat, nsym: nat, father: seq<int>, n: nat)
    requires WellFormed(ta, nsym) && WellFormed(tb, nsym) && Linked(father, ta) && Linked(father, tb)
    requires Id(ta) == a < |father| && Id(tb) == b < |father| && Nodes(ta) !! Nodes(tb)
    ensures Linked(father[a := n][b := 0 - n], Node(n, ta, tb))
  {
    NodesOf(ta, nsym);
    NodesOf(tb, nsym);
    LinkedFrame(father, father[a := n][b := 0 - n], ta, nsym);
    LinkedFrame(father, father[a := n][b := 0 - n], tb, nsym);
  }

  lemma OldTree(t: Tree, x: nat, a: nat, b: nat, f: seq<nat>, father: seq<int>, freq: seq<nat>, next: nat, m: nat)
    requires TreeOk(t, x, f, father, freq, next, m) && a !in Nodes(t) && b !in Nodes(t)
    requires a < |freq| && b < |freq| && |f| < next <= |freq| && m <= freq[b] <= freq[x]
    ensures var n := next - 1;
            TreeOk(t, x, f, father[a := n][b := 0 - n], freq[n := freq[a] + freq[b]], n, freq[b])
  {
    RootFacts(t, x, f, father, freq, next, m);
    LinkedFrame(father, father[a := next - 1][b := 0 - (next - 1)], t, |f|);
  }

  /** The trees whose roots are on the heap, while inner indices from next on are taken. */
  datatype Grove = Grove(trees: map<nat, Tree>, father: seq<int>, freq: seq<nat>, next: nat, m: nat)
  {
    ghost predicate Ok(f: seq<nat>, x: nat)
      requires x in trees
    {
      TreeOk(trees[x], x, f, father, freq, next, m)
    }

    ghost predicate Apart(x: nat, y: nat)
      requires x in trees && y in trees
    {
      Nodes(trees[x]) !! Nodes(trees[y])
    }

    ghost predicate Covered(i: nat)
    {
      exists x :: x in trees && i in Leaves(trees[x])
    }

    ghost predicate Valid(f: seq<nat>)
    {
      && |f| <= next && |father| == |freq|
      && (forall x :: x in trees ==> Ok(f, x))
      && (forall x, y :: x in trees && y in trees && x != y ==> Apart(x, y))
      && (forall i: nat :: i < |f| && f[i] > 0 ==> Covered(i))
    }

    /** Joining the two lightest trees a and b under the next free inner index. */
    function Join(a: nat, b: nat): Grove
      requires a in trees && b in trees && 1 <= next <= |freq| == |father| && a < |father| && b < |father|
    {
      var n := next - 1;
      Grove((trees - {a, b})[n := Node(n, trees[a], trees[b])], father[a := n][b := 0 - n],
            freq[n := freq[a] + freq[b]], n, freq[b])
    }
  }

  /** a and b are the two lightest roots, a first. */
  ghost predicate Lightest(g: Grove, f: seq<nat>, a: nat, b: nat)
  {
    && g.Valid(f) && a in g.trees && b in g.trees && a != b && |f| < g.next <= |g.freq|
    && |g.father| == |g.freq| && a < |g.freq| && b < |g.freq| && g.freq[a] <= g.freq[b]
    && forall y :: y in g.trees && y != a ==> y < |g.freq| && g.freq[b] <= g.freq[y]
  }

  lemma Separate(g: Grove, f: seq<nat>, x: nat, y: nat)
    requires g.Valid(f) && x in g.trees && y in g.trees && x != y
    ensures x !in Nodes(g.trees[y]) && Nodes(g.trees[x]) !! Nodes(g.trees[y])
  {
    hide TreeOk;
    assert g.Ok(f, x) && g.Apart(x, y);
    RootFacts(g.trees[x], x, f, g.father, g.freq, g.next, g.m);
  }

  lemma FreshIndex(g: Grove, f: seq<nat>, x: nat)
    requires g.Valid(f) && x in g.trees && |f| < g.next
    ensures g.next - 1 !in Nodes(g.trees[x]) && x != g.next - 1
  {
    hide TreeOk;
    assert g.Ok(f, x);
    RootFacts(g.trees[x], x, f, g.father, g.freq, g.next, g.m);
  }

  lemma JoinOk(g: Grove, f: seq<nat>, a: nat, b: nat, x: nat)
    requires Lightest(g, f, a, b) && x in g.Join(a, b).trees
    ensures g.Join(a, b).Ok(f, x)
  {
    hide TreeOk, Nodes;
    var g' := g.Join(a, b);
    if x == g.next - 1 {
      assert g.Ok(f, a) && g.Ok(f, b);
      Separate(g, f, a, b);
      NewTree(g.trees[a], g.trees[b], a, b, f, g.father, g.freq, g.next, g.m);
    } else {
      assert g.Ok(f, x) && g.Ok(f, b);
      Separate(g, f, a, x);
      Separate(g, f, b, x);
      assert g.m <= g.freq[b] by { MassAtLeast(g, f, b); }
      OldTree(g.trees[x], x, a, b, f, g.father, g.freq, g.next, g.m);
    }
  }

  lemma MassAtLeast(g: Grove, f: seq<nat>, x: nat)
    requires g.Valid(f) && x in g.trees
    ensures x < |g.freq| && g.m <= g.freq[x]
  {
    assert g.Ok(f, x);
  }

  lemma JoinApart(g: Grove, f: seq<nat>, a: nat, b: nat, x: nat, y: nat)
    requires Lightest(g, f, a, b) && x in g.Join(a, b).trees && y in g.Join(a, b).trees && x != y && y != g.next - 1
    ensures g.Join(a, b).Apart(x, y) && g.Join(a, b).Apart(y, x)
  {
    hide TreeOk;
    if x == g.next - 1 {
      FreshIndex(g, f, y);
      Separate(g, f, a, y);
      Separate(g, f, b, y);
      assert Nodes(g.Join(a, b).trees[x]) == {x} + Nodes(g.trees[a]) + Nodes(g.trees[b]);
    } else {
      Separate(g, f, x, y);
    }
  }

  lemma JoinCovers(g: Grove, f: seq<nat>, a: nat, b: nat, i: nat)
    requires Lightest(g, f, a, b) && g.Covered(i)
    ensures g.Join(a, b).Covered(i)
  {
    hide TreeOk, Nodes;
    var g', n := g.Join(a, b), g.next - 1;
    var x :| x in g.trees && i in Leaves(g.trees[x]);
    FreshIndex(g, f, x);
    var x' := if x == a || x == b then n else x;
    assert x' in g'.trees && i in Leaves(g'.trees[x']);
  }

  lemma JoinValid(g: Grove, f: seq<nat>, a: nat, b: nat)
    requires Lightest(g, f, a, b)
    ensures g.Join(a, b).Valid(f) && g.next - 1 !in g.trees
    ensures g.Join(a, b).trees.Keys == g.trees.Keys - {a, b} + {g.next - 1}
  {
    hide TreeOk, Nodes, Leaves, Grove.Covered, Grove.Apart, Grove.Ok;
    var g', n := g.Join(a, b), g.next - 1;
    forall x | x in g.trees ensures x != n {
      FreshIndex(g, f, x);
    }
    forall x | x in g'.trees ensures g'.Ok(f, x) {
      JoinOk(g, f, a, b, x);
    }
    forall x, y | x in g'.trees && y in g'.trees && x != y ensures g'.Apart(x, y) {
      if y != n {
        JoinApart(g, f, a, b, x, y);
      } else {
        JoinApart(g, f, a, b, y, x);
      }
    }
    forall i: nat | i < |f| && f[i] > 0 ensures g'.Covered(i) {
      JoinCovers(g, f, a, b, i);
    }
  }

  // ----- the heap holds the roots -----

  lemma ExtractLive(h: seq<nat>, len: nat)
    requires 2 <= len < |h|
    ensures Live(h[1 := h[len]], len - 1) == Live(h, len) - multiset{h[1]}
  {
    var mid := h[2..len];
    assert h[1..len + 1] == [h[1]] + mid + [h[len]];
    assert h[1 := h[len]][1..len] == [h[len]] + mid;
    BagOfEnds(h[1], mid, h[len]);
  }

  lemma BagOfEnds(x: nat, mid: seq<nat>, y: nat)
    ensures multiset([x] + mid + [y]) - multiset{x} == multiset([y] + mid)
  {
  }

  lemma ReplaceLive(h: seq<nat>, len: nat, n: nat)
    requires 1 <= len < |h|
    ensures Live(h[1 := n], len) == Live(h, len) - multiset{h[1]} + multiset{n}
  {
    var s := h[1..len + 1];
    assert s == [h[1]] + s[1..];
    assert h[1 := n][1..len + 1] == [n] + s[1..];
  }

  lemma LiveAt(h: seq<nat>, len: nat, y: nat) returns (k: nat)
    requires len < |h| && y in Live(h, len)
    ensures 1 <= k <= len && h[k] == y
  {
    var s := h[1..len + 1];
    assert y in s;
    var j :| 0 <= j < |s| && s[j] == y;
    k := j + 1;
  }

  lemma RootLeastLive(h: seq<nat>, f: seq<nat>, len: nat, y: nat)
    requires InRange(h, f, len) && Ordered(h, f, 1, len) && y in Live(h, len)
    ensures y < |f| && f[h[1]] <= f[y]
  {
    var k := LiveAt(h, len, y);
    RootIsLeast(h, f, len, k);
  }

  /** Links of inner nodes lead to smaller taken indices. */
  ghost predicate LinksDown(g: Grove, nsym: nat)
  {
    forall q :: nsym <= q < |g.father| ==> g.father[q] == 0 || g.next <= Abs(g.father[q]) < q
  }

  lemma JoinLinksDown(g: Grove, f: seq<nat>, a: nat, b: nat)
    requires Lightest(g, f, a, b) && LinksDown(g, |f|)
    ensures LinksDown(g.Join(a, b), |f|)
  {
    assert g.Ok(f, a) && g.Ok(f, b);
    RootFacts(g.trees[a], a, f, g.father, g.freq, g.next, g.m);
    RootFacts(g.trees[b], b, f, g.father, g.freq, g.next, g.m);
  }

  /** The heap positions and the grove agree. */
  ghost predicate InStep(g: Grove, h: seq<nat>, len: nat, f: seq<nat>)
  {
    && g.Valid(f) && LinksDown(g, |f|) && 1 <= len && g.next == len + |f| - 1 && |g.freq| == 2 * |f| && len <= |f|
    && InRange(h, g.freq, len) && Ordered(h, g.freq, 1, len)
    && Live(h, len) == multiset(g.trees.Keys)
  }

  lemma RoundKeys(keys: set<nat>, h: seq<nat>, h1: seq<nat>, len: nat)
    requires 2 <= len < |h| && len <= |h1| && Live(h, len) == multiset(keys)
    requires Live(h1, len - 1) == Live(h, len) - multiset{h[1]}
    ensures h[1] in keys && h1[1] in keys && h[1] != h1[1] && h1[1] in Live(h, len)
    ensures multiset(keys - {h[1]}) == Live(h1, len - 1)
  {
    RootLive(h, len);
    RootLive(h1, len - 1);
    hide *;
    WithoutRoot(keys, h[1], h1[1], Live(h, len), Live(h1, len - 1));
  }

  lemma RoundWeights(keys: set<nat>, f: seq<nat>, h: seq<nat>, h1: seq<nat>, len: nat)
    requires 2 <= len && InRange(h, f, len) && Ordered(h, f, 1, len) && InRange(h1, f, len - 1) && Ordered(h1, f, 1, len - 1)
    requires multiset(keys) == Live(h1, len - 1) && h1[1] in Live(h, len)
    ensures h[1] < |f| && h1[1] < |f| && f[h[1]] <= f[h1[1]]
    ensures forall y :: y in keys ==> y < |f| && f[h1[1]] <= f[y]
  {
    InRangeSize(h, f, len);
    InRangeSize(h1, f, len - 1);
    hide *;
    RootLeastLive(h, f, len, h1[1]);
    OthersHeavier(h1, f, len - 1, keys);
  }

  /** The roots extracted by one round are the two lightest. */
  lemma RoundIsLightest(g: Grove, f: seq<nat>, h: seq<nat>, h1: seq<nat>, len: nat)
    requires InStep(g, h, len, f) && len >= 2
    requires InRange(h1, g.freq, len - 1) && Ordered(h1, g.freq, 1, len - 1)
    requires Live(h1, len - 1) == Live(h, len) - multiset{h[1]}
    ensures Lightest(g, f, h[1], h1[1])
    ensures multiset(g.trees.Keys - {h[1]}) == Live(h1, len - 1)
  {
    InStepShape(g, h, len, f);
    InRangeSize(h1, g.freq, len - 1);
    hide *;
    RoundKeys(g.trees.Keys, h, h1, len);
    RoundWeights(g.trees.Keys - {h[1]}, g.freq, h, h1, len);
    LightestFrom(g, f, h[1], h1[1]);
  }

  lemma LightestFrom(g: Grove, f: seq<nat>, a: nat, b: nat)
    requires g.Valid(f) && a in g.trees.Keys && b in g.trees.Keys && a != b && |f| < g.next <= |g.freq| && |g.father| == |g.freq|
    requires a < |g.freq| && b < |g.freq| && g.freq[a] <= g.freq[b]
    requires forall y :: y in g.trees.Keys - {a} ==> y < |g.freq| && g.freq[b] <= g.freq[y]
    ensures Lightest(g, f, a, b)
  {
    hide Grove.Valid;
    forall y | y in g.trees && y != a ensures y < |g.freq| && g.freq[b] <= g.freq[y] {
      assert y in g.trees.Keys - {a};
    }
  }

  lemma InStepShape(g: Grove, h: seq<nat>, len: nat, f: seq<nat>)
    requires InStep(g, h, len, f) && len >= 2
    ensures g.Valid(f) && |f| < g.next <= |g.freq| && |g.father| == |g.freq| == 2 * |f| && g.next == len + |f| - 1 && len <= |f|
    ensures len < |h| && InRange(h, g.freq, len) && Ordered(h, g.freq, 1, len) && Live(h, len) == multiset(g.trees.Keys)
  {
    hide Grove.Ok, Grove.Apart, Grove.Covered, LinksDown, Ordered, Live;
  }

  lemma OthersHeavier(h: seq<nat>, f: seq<nat>, len: nat, keys: set<nat>)
    requires 1 <= len && InRange(h, f, len) && Ordered(h, f, 1, len) && multiset(keys) == Live(h, len)
    ensures forall y :: y in keys ==> y < |f| && f[h[1]] <= f[y]
  {
    hide Ordered, InRange, Live;
    InRangeSize(h, f, len);
    forall y | y in keys ensures y < |f| && h[1] < |f| && f[h[1]] <= f[y] {
      assert y in multiset(keys);
      RootLeastLive(h, f, len, y);
    }
  }

  lemma InRangeSize(h: seq<nat>, f: seq<nat>, len: nat)
    requires 1 <= len && InRange(h, f, len)
    ensures len < |h| && h[1] < |f|
  {
  }

  lemma RootLive(h: seq<nat>, len: nat)
    requires 1 <= len < |h|
    ensures h[1] in Live(h, len)
  {
    assert h[1..len + 1][0] == h[1];
  }

  lemma WithoutRoot(keys: set<nat>, a: nat, b: nat, live: multiset<nat>, live1: multiset<nat>)
    requires live == multiset(keys) && live1 == live - multiset{a} && a in live && b in live1
    ensures a in keys && b in keys && a != b && multiset(keys - {a}) == live1 && b in live
  {
    assert multiset(keys)[a] == 1;
    assert multiset(keys - {a}) == multiset(keys) - multiset{a};
    assert b in multiset(keys - {a});
  }

  ghost predicate AfterRound(g: Grove, f: seq<nat>, h: seq<nat>, len: nat, n: nat)
  {
    && g.Valid(f) && LinksDown(g, |f|) && g.next == n && n in g.trees && g.trees[n].Node?
    && InRange(h, g.freq, len) && Ordered(h, g.freq, 2, len)
    && Live(h, len) == multiset(g.trees.Keys)
  }

  /** After the join the array part of the invariant holds again, but for the new root's place in the heap. */
  lemma RoundJoined(g: Grove, f: seq<nat>, h: seq<nat>, h1: seq<nat>, len: nat)
    requires InStep(g, h, len, f) && len >= 2
    requires InRange(h1, g.freq, len - 1) && Ordered(h1, g.freq, 1, len - 1)
    requires Live(h1, len - 1) == Live(h, len) - multiset{h[1]}
    ensures Lightest(g, f, h[1], h1[1])
    ensures AfterRound(g.Join(h[1], h1[1]), f, h1[1 := len + |f| - 2], len - 1, len + |f| - 2)
  {
    hide Grove.Valid, Ordered, Live, LinksDown, TreeOk, Nodes, Leaves, Lightest;
    var a, b, n := h[1], h1[1], len + |f| - 2;
    RoundIsLightest(g, f, h, h1, len);
    JoinValid(g, f, a, b);
    JoinLinksDown(g, f, a, b);
    ReplaceLive(h1, len - 1, n);
    JoinFields(g, f, a, b);
    var g' := g.Join(a, b);
    KeysMultiset(g.trees.Keys, g'.trees.Keys, a, b, n);
    NewRootFresh(g, f, h1, len - 1, a, n, g.freq[a] + g.freq[b]);
  }

  lemma KeysMultiset(keys: set<nat>, keys': set<nat>, a: nat, b: nat, n: nat)
    requires a in keys && b in keys && a != b && n !in keys && keys' == keys - {a, b} + {n}
    ensures multiset(keys') == multiset(keys - {a}) - multiset{b} + multiset{n}
  {
  }

  lemma NewRootFresh(g: Grove, f: seq<nat>, h1: seq<nat>, len: nat, a: nat, n: nat, v: nat)
    requires InRange(h1, g.freq, len) && Ordered(h1, g.freq, 1, len) && n < |g.freq| && 1 <= len
    requires multiset(g.trees.Keys - {a}) == Live(h1, len) && n !in g.trees
    ensures InRange(h1[1 := n], g.freq[n := v], len) && Ordered(h1[1 := n], g.freq[n := v], 2, len)
  {
    forall k | 1 <= k <= len ensures h1[k] != n {
      assert h1[1..len + 1][k - 1] == h1[k];
      assert h1[k] in Live(h1, len);
    }
  }

  lemma RoundDone(g: Grove, f: seq<nat>, h: seq<nat>, len: nat, root: nat)
    requires InStep(g, h, len, f) && len == 1 && root in g.trees
    ensures g.trees.Keys == {root} && h[1] == root
  {
    var s := h[1..2];
    assert s == [h[1]];
    assert multiset(g.trees.Keys) == multiset{h[1]};
    assert root in multiset(g.trees.Keys);
    forall x | x in g.trees ensures x == h[1] {
      assert x in multiset(g.trees.Keys);
    }
  }

  // ----- whole runs of joins -----

  /** Joining the two lightest roots again and again, from g on, can leave the tree t alone; ties are open. */
  ghost predicate Reaches(g: Grove, f: seq<nat>, t: Tree)
    decreases g.next
  {
    || (g.trees.Keys == {Id(t)} && g.trees[Id(t)] == t)
    || exists a, b :: Lightest(g, f, a, b) && Reaches(g.Join(a, b), f, t)
  }

  lemma {:induction false} ReachesGreedy(g: Grove, f: seq<nat>, t: Tree)
    requires g.Valid(f) && Reaches(g, f, t)
    ensures WellFormed(t, |f|) && Greedy(t, f, |f|)
    decreases g.next
  {
    hide Grove.Valid, Greedy, Linked, ChildrenAtMost;
    if g.trees.Keys == {Id(t)} && g.trees[Id(t)] == t {
      ValidRoot(g, f, Id(t));
    } else {
      var a, b :| Lightest(g, f, a, b) && Reaches(g.Join(a, b), f, t);
      JoinValid(g, f, a, b);
      ReachesGreedy(g.Join(a, b), f, t);
    }
  }

  lemma ValidRoot(g: Grove, f: seq<nat>, x: nat)
    requires g.Valid(f) && x in g.trees
    ensures g.Ok(f, x)
  {
    hide TreeOk;
  }

  // ----- the run the heap decides on -----

  /** The heap once its first root has been taken out. */
  ghost function Extracted(g: Grove, h: seq<nat>, len: nat): (h1: seq<nat>)
    requires 2 <= len && InRange(h, g.freq, len)
    ensures |h1| == |h| && InRange(h1, g.freq, len - 1)
  {
    Sift(h[1 := h[len]], g.freq, len - 1, 1)
  }

  /** The grove and the heap after one round: the two roots on top of the heap, one after the other, are joined. */
  ghost function Next(g: Grove, h: seq<nat>, len: nat, f: seq<nat>): (r: (Grove, seq<nat>))
    requires InStep(g, h, len, f) && len >= 2
    ensures InStep(r.0, r.1, len - 1, f) && |r.1| == |h|
  {
    RoundStep(g, f, h, len);
    var h1 := Extracted(g, h, len);
    var g' := g.Join(h[1], h1[1]);
    (g', Sift(h1[1 := g'.next], g'.freq, len - 1, 1))
  }

  /** The tree that is left in the end. */
  ghost function TreeOf(g: Grove, h: seq<nat>, len: nat, f: seq<nat>): Tree
    requires InStep(g, h, len, f)
    decreases len
  {
    if len == 1 then
      RootInGrove(g, f, h, len);
      g.trees[h[1]]
    else
      var next := Next(g, h, len, f);
      TreeOf(next.0, next.1, len - 1, f)
  }

  lemma RootInGrove(g: Grove, f: seq<nat>, h: seq<nat>, len: nat)
    requires InStep(g, h, len, f)
    ensures 1 <= len < |h| && h[1] in g.trees
  {
    hide Grove.Valid, LinksDown, Ordered;
    RootLive(h, len);
    assert h[1] in multiset(g.trees.Keys);
  }

  /** One round of the heap joins the two lightest roots and keeps everything in step. */
  lemma RoundStep(g: Grove, f: seq<nat>, h: seq<nat>, len: nat)
    requires InStep(g, h, len, f) && len >= 2
    ensures len < |h| && InRange(h, g.freq, len)
    ensures var h1 := Extracted(g, h, len);
            && Lightest(g, f, h[1], h1[1])
            && var g' := g.Join(h[1], h1[1]);
               && g'.next in g'.trees && g'.trees[g'.next].Node?
               && g'.next == len + |f| - 2 && InRange(h1[1 := g'.next], g'.freq, len - 1)
               && InStep(g', Sift(h1[1 := g'.next], g'.freq, len - 1, 1), len - 1, f)
  {
    hide *;
    ExtractedFacts(g, f, h, len);
    var h1 := Extracted(g, h, len);
    RoundJoined(g, f, h, h1, len);
    JoinFields(g, f, h[1], h1[1]);
    InStepShape(g, h, len, f);
    AfterSift(g.Join(h[1], h1[1]), f, h1[1 := len + |f| - 2], len - 1);
  }

  lemma ExtractedFacts(g: Grove, f: seq<nat>, h: seq<nat>, len: nat)
    requires InStep(g, h, len, f) && len >= 2
    ensures len < |h| && InRange(h, g.freq, len)
    ensures var h1 := Extracted(g, h, len);
            Ordered(h1, g.freq, 1, len - 1) && Live(h1, len - 1) == Live(h, len) - multiset{h[1]}
  {
    hide Ordered, Live, Sift, Grove.Valid, LinksDown;
    ExtractLive(h, len);
    ExtractOrdered(h, g.freq, len);
    SiftOrdered(h[1 := h[len]], g.freq, len - 1, 1);
  }

  lemma AfterSift(g: Grove, f: seq<nat>, h: seq<nat>, len: nat)
    requires 1 <= len <= |f| && |g.freq| == 2 * |f| && AfterRound(g, f, h, len, len + |f| - 1)
    ensures g.next == len + |f| - 1 && g.next in g.trees && g.trees[g.next].Node? && InRange(h, g.freq, len)
    ensures InStep(g, Sift(h, g.freq, len, 1), len, f)
  {
    hide Grove.Valid, LinksDown, Ordered, Live, Sift;
    SiftOrdered(h, g.freq, len, 1);
  }

  /** The tree is one that joining two lightest roots can reach, and holds all used symbols. */
  lemma {:induction false} TreeOfReached(g: Grove, h: seq<nat>, len: nat, f: seq<nat>)
    requires InStep(g, h, len, f)
    ensures Reaches(g, f, TreeOf(g, h, len, f))
    ensures forall i: nat :: i < |f| && f[i] > 0 ==> i in Leaves(TreeOf(g, h, len, f))
    decreases len
  {
    hide Lightest, Leaves, Grove.Valid, LinksDown, Ordered, Live, Sift, InRange, Grove.Join;
    if len == 1 {
      RootInGrove(g, f, h, len);
      RoundDone(g, f, h, len, h[1]);
      ValidRoot(g, f, h[1]);
      OneRootCovers(g, f, h[1]);
    } else {
      RoundStep(g, f, h, len);
      var next := Next(g, h, len, f);
      TreeOfReached(next.0, next.1, len - 1, f);
    }
  }

  lemma OneRootCovers(g: Grove, f: seq<nat>, x: nat)
    requires g.Valid(f) && g.trees.Keys == {x}
    ensures forall i: nat :: i < |f| && f[i] > 0 ==> i in Leaves(g.trees[x])
  {
    hide Grove.Ok, Grove.Apart;
    forall i: nat | i < |f| && f[i] > 0 ensures i in Leaves(g.trees[x]) {
      assert g.Covered(i);
    }
  }

  /** One round: take the lightest root, then replace the next one by their join. */
  method JoinRound(f: seq<nat>, heap: array<nat>, len: nat, freq: array<nat>, father: array<int>, ghost g: Grove)
    returns (ghost a: nat, ghost b: nat, ghost g': Grove, heapLen: nat)
    requires heap.Length == |f| + 1 && freq.Length == father.Length == 2 * |f| && heap != freq
    requires g.father == father[..] && g.freq == freq[..] && InStep(g, heap[..], len, f) && len >= 2
    requires Sum(f) < 0x1_0000_0000
    modifies heap, freq, father
    ensures Lightest(g, f, a, b) && g' == g.Join(a, b) && (g', heap[..]) == Next(g, old(heap[..]), len, f)
    ensures g'.father == father[..] && g'.freq == freq[..] && heapLen == len - 1 && InStep(g', heap[..], heapLen, f)
    ensures g'.next in g'.trees && g'.trees[g'.next].Node?
    ensures forall i :: 0 <= i < |f| ==> freq[i] == old(freq[i])
  {
    hide Grove.Valid, LinksDown, Ordered, Live, Lightest, Grove.Join, Sift;
    heapLen := len;
    var extracted := heap[1];
    ghost var h := heap[..];
    RoundStep(g, f, h, len);
    heap[1] := heap[heapLen];
    heapLen := heapLen - 1;
    assert heap[..] == h[1 := h[len]];
    Reheap(1, heap, heapLen, freq[..]);
    ghost var h1 := heap[..];
    a, b := extracted, h1[1];
    JoinFields(g, f, extracted, b);
    JoinFits(g, f, extracted, b);

    var internal := heapLen + |f| - 1;
    freq[internal] := (freq[heap[1]] + freq[extracted]) % 0x1_0000_0000;
    father[extracted] := internal;
    father[heap[1]] := -internal;
    g' := g.Join(extracted, b);
    assert freq[..] == g'.freq && father[..] == g'.father;
    heap[1] := internal;
    assert heap[..] == h1[1 := internal];
    Reheap(1, heap, heapLen, freq[..]);
  }

  lemma ExtractOrdered(h: seq<nat>, f: seq<nat>, len: nat)
    requires 2 <= len && InRange(h, f, len) && Ordered(h, f, 1, len)
    ensures InRange(h[1 := h[len]], f, len - 1) && Ordered(h[1 := h[len]], f, 2, len - 1)
  {
  }

  lemma JoinFields(g: Grove, f: seq<nat>, a: nat, b: nat)
    requires Lightest(g, f, a, b)
    ensures a != b && a in g.trees && b in g.trees && |f| < g.next <= |g.freq| == |g.father| && a < |g.freq| && b < |g.freq|
    ensures g.Join(a, b).freq == g.freq[g.next - 1 := g.freq[b] + g.freq[a]]
    ensures g.Join(a, b).father == g.father[a := g.next - 1][b := 0 - (g.next - 1)]
  {
    hide Grove.Valid;
  }

  /** Adding two frequencies does not overflow 32 bits. */
  lemma JoinFits(g: Grove, f: seq<nat>, a: nat, b: nat)
    requires Lightest(g, f, a, b)
    ensures a < |g.freq| && b < |g.freq| && g.freq[a] + g.freq[b] <= Sum(f)
  {
    hide Grove.Valid;
    JoinOk(g, f, a, b, g.next - 1);
    JoinedMass(g.Join(a, b), f, g.next - 1);
  }

  lemma JoinedMass(g: Grove, f: seq<nat>, n: nat)
    requires n in g.trees && g.Ok(f, n)
    ensures n < |g.freq| && g.freq[n] <= Sum(f)
  {
    MassBound(g.trees[n], f);
  }

  // ----- masses are bounded by the frequency sum -----

  function Cleared(t: Tree, f: seq<nat>): (r: seq<nat>)
    ensures |r| == |f|
    ensures forall i :: 0 <= i < |f| ==> r[i] == if i in Leaves(t) then 0 else f[i]
  {
    match t
    case Leaf(i) => if i < |f| then f[i := 0] else f
    case Node(_, l, r) => Cleared(r, Cleared(l, f))
  }

  lemma {:induction false} MassFrame(t: Tree, f: seq<nat>, f': seq<nat>)
    requires WellFormed(t, |f|) && |f| == |f'|
    requires forall i :: i in Leaves(t) && i < |f| ==> f'[i] == f[i]
    ensures Mass(t, f', |f|) == Mass(t, f, |f|)
  {
    if t.Node? {
      MassFrame(t.left, f, f');
      MassFrame(t.right, f, f');
    }
  }

  lemma {:induction false} MassCleared(t: Tree, f: seq<nat>)
    requires WellFormed(t, |f|)
    ensures Sum(f) == Mass(t, f, |f|) + Sum(Cleared(t, f))
  {
    match t
    case Leaf(i) =>
      SumUpdate(f, i, 0);
    case Node(_, l, r) =>
      NodesOf(l, |f|);
      NodesOf(r, |f|);
      MassCleared(l, f);
      MassFrame(r, f, Cleared(l, f));
      MassCleared(r, Cleared(l, f));
  }

  lemma MassBound(t: Tree, f: seq<nat>)
    requires WellFormed(t, |f|)
    ensures Mass(t, f, |f|) <= Sum(f)
  {
    MassCleared(t, f);
  }

  /** Joins roots until one is left; its index is nsym and its link is cleared. */
  method BuildCodeTree(f: seq<nat>, heap: array<nat>, heapLen0: nat, freq: array<nat>, father: array<int>, ghost g0: Grove)
    returns (ghost t: Tree)
    requires heap.Length == |f| + 1 && freq.Length == father.Length == 2 * |f| && heap != freq
    requires g0.father == father[..] && g0.freq == freq[..] && InStep(g0, heap[..], heapLen0, f) && 2 <= heapLen0
    requires Sum(f) < 0x1_0000_0000
    modifies heap, freq, father
    ensures t == TreeOf(g0, old(heap[..]), heapLen0, f)
    ensures t.Node? && Id(t) == |f| && WellFormed(t, |f|) && Greedy(t, f, |f|)
    ensures Linked(father[..], t) && Descends(father[..], |f|) && father[|f|] == 0
    ensures forall i: nat :: i < |f| && f[i] > 0 ==> i in Leaves(t)
    ensures forall i :: 0 <= i < |f| ==> freq[i] == old(freq[i])
  {
    hide InStep, Lightest, Grove.Join, Next;
    ghost var g := g0;
    var heapLen := heapLen0;
    while heapLen > 1
      invariant 1 <= heapLen <= heapLen0
      invariant g.father == father[..] && g.freq == freq[..] && InStep(g, heap[..], heapLen, f)
      invariant heapLen == heapLen0 || (g.next in g.trees && g.trees[g.next].Node?)
      invariant forall i :: 0 <= i < |f| ==> freq[i] == old(freq[i])
      invariant TreeOf(g, heap[..], heapLen, f) == TreeOf(g0, old(heap[..]), heapLen0, f)
    {
      ghost var a, b;
      a, b, g, heapLen := JoinRound(f, heap, heapLen, freq, father, g);
    }
    t := g.trees[g.next];
    Finished(g, f, heap[..]);
    father[|f|] := 0;
    assert father[..] == g.father[|f| := 0];
  }

  lemma Finished(g: Grove, f: seq<nat>, h: seq<nat>)
    requires InStep(g, h, 1, f) && g.next in g.trees && g.trees[g.next].Node?
    ensures var t, father := g.trees[g.next], g.father[|f| := 0];
            && t == TreeOf(g, h, 1, f)
            && g.next == |f| && |f| < |g.father| && Id(t) == |f| && WellFormed(t, |f|) && Greedy(t, f, |f|)
            && Linked(father, t) && Descends(father, |f|)
            && forall i: nat :: i < |f| && f[i] > 0 ==> i in Leaves(t)
  {
    hide Lightest;
    var t := g.trees[g.next];
    RoundDone(g, f, h, 1, g.next);
    assert g.Ok(f, g.next);
    LinkedFrame(g.father, g.father[|f| := 0], t, |f|);
    forall i: nat | i < |f| && f[i] > 0 ensures i in Leaves(t) {
      assert g.Covered(i);
    }
  }

  // ----- the symbols in use -----

  function UsedList(f: seq<nat>): (s: seq<nat>)
    ensures |s| == UsedCount(f) <= |f|
    ensures forall x: nat :: x in s <==> x < |f| && f[x] > 0
  {
    if f == [] then []
    else UsedList(f[..|f| - 1]) + if f[|f| - 1] > 0 then [|f| - 1] else []
  }

  function UsedSet(f: seq<nat>): set<nat>
  {
    set x | x in UsedList(f)
  }

  lemma {:induction false} UsedOnce(f: seq<nat>)
    ensures multiset(UsedList(f)) == multiset(UsedSet(f))
  {
    if f != [] {
      var n := |f| - 1;
      UsedOnce(f[..n]);
      if f[n] > 0 {
        assert n !in UsedSet(f[..n]);
        assert UsedSet(f) == UsedSet(f[..n]) + {n};
      } else {
        assert UsedSet(f) == UsedSet(f[..n]);
      }
    }
  }

  /** Every used symbol is a tree of its own; no links, and no inner nodes yet. */
  function Seedlings(f: seq<nat>): Grove
    requires |f| + UsedCount(f) >= 1
  {
    Grove(map x | x in UsedSet(f) :: Leaf(x), seq(2 * |f|, _ => 0), f + seq(|f|, _ => 0), UsedCount(f) + |f| - 1, 1)
  }

  lemma SeedlingsInStep(f: seq<nat>, h: seq<nat>)
    requires UsedCount(f) >= 1
    requires var freq := Seedlings(f).freq;
             && InRange(h, freq, UsedCount(f)) && Ordered(h, freq, 1, UsedCount(f))
             && Live(h, UsedCount(f)) == multiset(UsedList(f))
    ensures InStep(Seedlings(f), h, UsedCount(f), f)
  {
    hide Ordered, InRange, Live, Grove.Valid, Seedlings, UsedList, UsedCount, UsedSet, LinksDown;
    UsedOnce(f);
    SeedlingsShape(f);
    SeedlingsValid(f);
  }

  lemma SeedlingsShape(f: seq<nat>)
    requires UsedCount(f) >= 1
    ensures var g := Seedlings(f);
            && g.trees.Keys == UsedSet(f) && g.next == UsedCount(f) + |f| - 1 && |g.freq| == |g.father| == 2 * |f|
            && LinksDown(g, |f|) && UsedCount(f) <= |f|
  {
    hide UsedCount, UsedList;
    var g := Seedlings(f);
    assert |UsedList(f)| <= |f|;
    assert g.trees.Keys == UsedSet(f);
  }

  lemma SeedlingOk(f: seq<nat>, x: nat)
    requires UsedCount(f) >= 1 && x in Seedlings(f).trees
    ensures Seedlings(f).Ok(f, x) && Seedlings(f).trees[x] == Leaf(x)
  {
    hide UsedCount, UsedList;
    assert Seedlings(f).freq[x] == f[x];
  }

  lemma SeedlingsValid(f: seq<nat>)
    requires UsedCount(f) >= 1
    ensures Seedlings(f).Valid(f)
  {
    hide UsedCount, UsedList, TreeOk;
    var g := Seedlings(f);
    forall x | x in g.trees ensures g.Ok(f, x) && g.trees[x] == Leaf(x) {
      SeedlingOk(f, x);
    }
    forall i: nat | i < |f| && f[i] > 0 ensures g.Covered(i) {
      assert i in g.trees && i in Leaves(g.trees[i]);
    }
  }

  /** The used symbols, in order, from position 1 on. */
  function StartHeap(f: seq<nat>): (h: seq<nat>)
    ensures |h| == |f| + 1 && h[1..|UsedList(f)| + 1] == UsedList(f)
  {
    [0] + UsedList(f) + seq(|f| - |UsedList(f)|, _ => 0)
  }

  /** Collects the symbols with a nonzero frequency. */
  method SelectUsed(f: seq<nat>, heap: array<nat>) returns (heapLen: nat)
    requires heap.Length == |f| + 1 && forall j :: 0 <= j < heap.Length ==> heap[j] == 0
    modifies heap
    ensures heapLen == UsedCount(f) <= |f| && heap[..] == StartHeap(f)
  {
    hide UsedCount, UsedList, StartHeap;
    heapLen := 0;
    UsedStart(f);
    for i := 0 to |f|
      invariant heapLen == UsedCount(f[..i]) <= i && heap[1..heapLen + 1] == UsedList(f[..i])
      invariant heap[0] == 0 && forall j :: heapLen < j < heap.Length ==> heap[j] == 0
    {
      UsedStep(f, i);
      if f[i] > 0 {
        ghost var list := heap[1..heapLen + 1];
        heapLen := heapLen + 1;
        heap[heapLen] := i;
        assert heap[1..heapLen] == list;
        assert heap[1..heapLen + 1] == heap[1..heapLen] + [i];
      }
    }
    assert f[..|f|] == f;
    StartHeapIs(f, heap[..], heapLen);
  }

  lemma StartHeapIs(f: seq<nat>, h: seq<nat>, len: nat)
    requires |h| == |f| + 1 && len <= |f| && h[1..len + 1] == UsedList(f) && h[0] == 0
    requires forall j :: len < j < |h| ==> h[j] == 0
    ensures h == StartHeap(f)
  {
    hide UsedList;
    assert h == [h[0]] + h[1..len + 1] + h[len + 1..];
  }

  lemma UsedStart(f: seq<nat>)
    ensures UsedCount(f[..0]) == 0 && UsedList(f[..0]) == []
  {
  }

  lemma UsedStep(f: seq<nat>, i: nat)
    requires i < |f|
    ensures UsedCount(f[..i + 1]) == UsedCount(f[..i]) + if f[i] > 0 then 1 else 0
    ensures UsedList(f[..i + 1]) == UsedList(f[..i]) + if f[i] > 0 then [i] else []
  {
    assert f[..i + 1][..i] == f[..i];
  }

  /** The heap after sinking every entry from i down to the first. */
  ghost function Heaped(h: seq<nat>, f: seq<nat>, len: nat, i: nat): (r: seq<nat>)
    requires InRange(h, f, len) && i <= len
    ensures |r| == |h| && InRange(r, f, len)
    decreases i
  {
    if i == 0 then h else Heaped(Sift(h, f, len, i), f, len, i - 1)
  }

  lemma {:induction false} HeapedOrdered(h: seq<nat>, f: seq<nat>, len: nat, i: nat)
    requires InRange(h, f, len) && i <= len && Ordered(h, f, i + 1, len)
    ensures Ordered(Heaped(h, f, len, i), f, 1, len) && Live(Heaped(h, f, len, i), len) == Live(h, len)
    decreases i
  {
    hide Ordered, Live, Sift, InRange;
    if i > 0 {
      SiftOrdered(h, f, len, i);
      HeapedOrdered(Sift(h, f, len, i), f, len, i - 1);
    }
  }

  lemma NothingBelow(h: seq<nat>, f: seq<nat>, len: nat)
    requires InRange(h, f, len)
    ensures Ordered(h, f, len + 1, len)
  {
  }

  method Heapify(f: seq<nat>, heap: array<nat>, heapLen: nat)
    requires InRange(heap[..], f, heapLen)
    modifies heap
    ensures heap[..] == Heaped(old(heap[..]), f, heapLen, heapLen)
  {
    hide Sift, InRange;
    for i := heapLen + 1 downto 1
      invariant InRange(heap[..], f, heapLen)
      invariant Heaped(heap[..], f, heapLen, i - 1) == Heaped(old(heap[..]), f, heapLen, heapLen)
    {
      Reheap(i, heap, heapLen, f);
    }
  }

  // ----- code lengths from the father links -----

  /** The depths of the leaves, as the walk up the father links counts them into bytes. */
  method GenCodeLengths(f: seq<nat>, father: seq<int>, ghost t: Tree) returns (lengths: array<nat>)
    requires t.Node? && Id(t) == |f| < |father| && WellFormed(t, |f|) && Greedy(t, f, |f|) && Sum(f) < 0x1_0000_0000
    requires Linked(father, t) && Descends(father, |f|) && father[|f|] == 0
    requires forall i: nat :: i < |f| && f[i] > 0 ==> i in Leaves(t)
    ensures fresh(lengths) && lengths.Length == |f|
    ensures forall i: nat :: i < |f| ==> (i in Leaves(t) <==> f[i] > 0)
    ensures forall i: nat :: i < |f| ==> lengths[i] == if i in Leaves(t) then Depth(t, i) else 0
  {
    hide Linked, WellFormed, Greedy, Leaves, Depth, Descends, Sum, Height;
    var nsym := |f|;
    LeavesUsed(t, f);
    HeightFits(t, f);
    lengths := new nat[nsym](_ => 0);
    for i := 0 to nsym
      invariant forall k: nat :: k < nsym ==> lengths[k] == if k < i && k in Leaves(t) then Depth(t, k) else 0
    {
      if f[i] > 0 {
        DepthHeight(t, i);
        var depth := CountLinks(father, nsym, t, i);
        lengths[i] := depth % 256;
      }
    }
  }

  /** Walks up from a leaf to the root. */
  method CountLinks(father: seq<int>, nsym: nat, ghost t: Tree, i: nat) returns (depth: nat)
    requires t.Node? && Id(t) == nsym < |father| && WellFormed(t, nsym) && i in Leaves(t) && i < nsym
    requires Linked(father, t) && Descends(father, nsym) && father[nsym] == 0
    ensures depth == Depth(t, i)
  {
    hide Linked, WellFormed, Leaves, Depth;
    depth := 0;
    ChainIsDepth(father, nsym, t, i);
    var p := father[i];
    while p != 0
      invariant Link(father, nsym, p) && depth + Chain(father, nsym, p) == Depth(t, i)
      decreases Abs(p)
    {
      if p < 0 {
        p := -p;
      }
      p := father[p];
      depth := depth + 1;
    }
  }

  lemma HeightFits(t: Tree, f: seq<nat>)
    requires WellFormed(t, |f|) && Greedy(t, f, |f|) && Sum(f) < 0x1_0000_0000
    ensures Height(t) < 64
  {
    MassBound(t, f);
    HeightFitsByte(t, f, |f|);
  }

  lemma {:induction false} LeavesUsed(t: Tree, f: seq<nat>)
    requires WellFormed(t, |f|) && Greedy(t, f, |f|)
    ensures forall i :: i in Leaves(t) ==> i < |f| && f[i] > 0
  {
    if t.Node? {
      LeavesUsed(t.left, f);
      LeavesUsed(t.right, f);
    }
  }
}
