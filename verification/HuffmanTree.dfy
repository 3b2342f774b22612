/** Huffman trees: the father links that encode them, their Kraft sums and their height. */
module HuffmanTree {
  import opened BitStrings

  /** Leaves are symbols; an inner node carries the index the builder gave it. */
  datatype Tree = Leaf(sym: nat) | Node(id: nat, left: Tree, right: Tree)

  function Id(t: Tree): nat { if t.Leaf? then t.sym else t.id }

  function Nodes(t: Tree): set<nat>
  {
    match t
    case Leaf(i) => {i}
    case Node(n, l, r) => {n} + Nodes(l) + Nodes(r)
  }

  function Leaves(t: Tree): set<nat>
  {
    match t
    case Leaf(i) => {i}
    case Node(_, l, r) => Leaves(l) + Leaves(r)
  }

  function LeafCount(t: Tree): nat
  {
    match t
    case Leaf(_) => 1
    case Node(_, l, r) => LeafCount(l) + LeafCount(r)
  }

  /** Every index occurs once; symbols lie below nsym and inner indices grow downwards from it. */
  ghost predicate WellFormed(t: Tree, nsym: nat)
  {
    match t
    case Leaf(i) => i < nsym
    case Node(n, l, r) =>
      && nsym <= n && (l.Node? ==> n < l.id) && (r.Node? ==> n < r.id)
      && n !in Nodes(l) && n !in Nodes(r) && Nodes(l) !! Nodes(r)
      && WellFormed(l, nsym) && WellFormed(r, nsym)
  }

  lemma {:induction false} NodesOf(t: Tree, nsym: nat)
    requires WellFormed(t, nsym)
    ensures forall x :: x in Leaves(t) ==> x in Nodes(t) && x < nsym
    ensures forall x :: x in Nodes(t) && x >= nsym ==> t.Node? && t.id <= x
    ensures forall x :: x in Nodes(t) && x < nsym ==> x in Leaves(t)
    ensures Id(t) in Nodes(t)
  {
    if t.Node? {
      NodesOf(t.left, nsym);
      NodesOf(t.right, nsym);
    }
  }

  // ----- father links -----

  /** The builder's links: left children point to their father, right children to its negation. */
  ghost predicate Linked(father: seq<int>, t: Tree)
  {
    t.Node? ==>
      && Id(t.left) < |father| && father[Id(t.left)] == t.id
      && Id(t.right) < |father| && father[Id(t.right)] == 0 - t.id
      && Linked(father, t.left) && Linked(father, t.right)
  }

  lemma {:induction false} LinkedFrame(father: seq<int>, father': seq<int>, t: Tree, nsym: nat)
    requires WellFormed(t, nsym) && |father| == |father'| && Linked(father, t)
    requires forall x :: x in Nodes(t) && x != Id(t) && x < |father| ==> father'[x] == father[x]
    ensures Linked(father', t)
  {
    if t.Node? {
      NodesOf(t.left, nsym);
      NodesOf(t.right, nsym);
      LinkedFrame(father, father', t.left, nsym);
      LinkedFrame(father, father', t.right, nsym);
    }
  }

  /** Links lead to smaller inner indices, so every walk ends. */
  ghost predicate Descends(father: seq<int>, nsym: nat)
  {
    1 <= nsym && forall q :: nsym <= q < |father| ==> father[q] == 0 || nsym <= Abs(father[q]) < q
  }

  function Abs(p: int): nat { if p < 0 then -p else p }

  ghost predicate Link(father: seq<int>, nsym: nat, p: int)
  {
    p == 0 || nsym <= Abs(p) < |father|
  }

  /** The number of links from p up to the root's empty link. */
  ghost function Chain(father: seq<int>, nsym: nat, p: int): nat
    requires Descends(father, nsym) && Link(father, nsym, p)
    decreases Abs(p)
  {
    if p == 0 then 0 else 1 + Chain(father, nsym, father[Abs(p)])
  }

  function Depth(t: Tree, i: nat): nat
    requires i in Leaves(t)
  {
    match t
    case Leaf(_) => 0
    case Node(_, l, r) => 1 + if i in Leaves(l) then Depth(l, i) else Depth(r, i)
  }

  lemma {:induction false} ChainIsDepth(father: seq<int>, nsym: nat, t: Tree, i: nat)
    requires WellFormed(t, nsym) && Linked(father, t) && Descends(father, nsym)
    requires i in Leaves(t) && Id(t) < |father| && Link(father, nsym, father[Id(t)])
    ensures i < |father| && Link(father, nsym, father[i])
    ensures Chain(father, nsym, father[i]) == Depth(t, i) + Chain(father, nsym, father[Id(t)])
  {
    hide WellFormed, Linked, Descends, Chain, Link;
    if t.Node? {
      var c := if i in Leaves(t.left) then t.left else t.right;
      ChildChain(father, nsym, t, c);
      ChainIsDepth(father, nsym, c, i);
    }
  }

  lemma ChildChain(father: seq<int>, nsym: nat, t: Tree, c: Tree)
    requires WellFormed(t, nsym) && Linked(father, t) && Descends(father, nsym)
    requires t.Node? && (c == t.left || c == t.right) && Id(t) < |father| && Link(father, nsym, father[Id(t)])
    ensures WellFormed(c, nsym) && Linked(father, c) && Id(c) < |father| && Link(father, nsym, father[Id(c)])
    ensures Chain(father, nsym, father[Id(c)]) == 1 + Chain(father, nsym, father[Id(t)])
  {
    hide Nodes, Leaves, Descends, Chain, Link;
    OneLink(father, nsym, father[Id(c)], Id(t));
  }

  lemma OneLink(father: seq<int>, nsym: nat, p: int, q: nat)
    requires Descends(father, nsym) && nsym <= q < |father| && Abs(p) == q && Link(father, nsym, father[q])
    ensures Link(father, nsym, p) && Chain(father, nsym, p) == 1 + Chain(father, nsym, father[q])
  {
  }

  // ----- frequencies and height -----

  function Mass(t: Tree, f: seq<nat>, nsym: nat): nat
    requires WellFormed(t, nsym) && |f| == nsym
  {
    match t
    case Leaf(i) => f[i]
    case Node(_, l, r) => Mass(l, f, nsym) + Mass(r, f, nsym)
  }

  function Max(a: nat, b: nat): nat { if a < b then b else a }

  function Height(t: Tree): nat
  {
    match t
    case Leaf(_) => 0
    case Node(_, l, r) => 1 + Max(Height(l), Height(r))
  }

  ghost predicate ChildrenAtMost(t: Tree, f: seq<nat>, nsym: nat, m: nat)
    requires WellFormed(t, nsym) && |f| == nsym
  {
    t.Node? ==> Mass(t.left, f, nsym) <= m && Mass(t.right, f, nsym) <= m
  }

  /** Huffman's choice: every node is at least as heavy as its sibling's children. */
  ghost predicate Greedy(t: Tree, f: seq<nat>, nsym: nat)
    requires WellFormed(t, nsym) && |f| == nsym
  {
    match t
    case Leaf(i) => f[i] >= 1
    case Node(_, l, r) =>
      && ChildrenAtMost(l, f, nsym, Mass(r, f, nsym)) && ChildrenAtMost(r, f, nsym, Mass(l, f, nsym))
      && Greedy(l, f, nsym) && Greedy(r, f, nsym)
  }

  /** The least mass of a greedy tree of height h: the Fibonacci numbers 1, 2, 3, 5, ... */
  function LeastMass(h: nat): (m: nat)
    ensures m >= 1
  {
    if h == 0 then 1 else if h == 1 then 2 else LeastMass(h - 1) + LeastMass(h - 2)
  }

  lemma {:induction false} HeightMass(t: Tree, f: seq<nat>, nsym: nat)
    requires WellFormed(t, nsym) && |f| == nsym && Greedy(t, f, nsym)
    ensures Mass(t, f, nsym) >= LeastMass(Height(t))
    decreases t, 1
  {
    hide *;
    if t.Leaf? {
      LeafMass(t, f, nsym);
    } else {
      HalvesMass(t, f, nsym);
      HeightMass(t.left, f, nsym);
      HeightMass(t.right, f, nsym);
      if Height(t.left) >= Height(t.right) {
        TallerChild(t.left, t.right, f, nsym);
      } else {
        TallerChild(t.right, t.left, f, nsym);
      }
    }
  }

  lemma LeafMass(t: Tree, f: seq<nat>, nsym: nat)
    requires WellFormed(t, nsym) && |f| == nsym && Greedy(t, f, nsym) && t.Leaf?
    ensures Mass(t, f, nsym) >= LeastMass(Height(t))
  {
  }

  lemma HalvesMass(t: Tree, f: seq<nat>, nsym: nat)
    requires WellFormed(t, nsym) && |f| == nsym && Greedy(t, f, nsym) && t.Node?
    ensures WellFormed(t.left, nsym) && WellFormed(t.right, nsym) && Greedy(t.left, f, nsym) && Greedy(t.right, f, nsym)
    ensures Mass(t, f, nsym) == Mass(t.left, f, nsym) + Mass(t.right, f, nsym)
    ensures Height(t) == 1 + if Height(t.left) >= Height(t.right) then Height(t.left) else Height(t.right)
    ensures ChildrenAtMost(t.left, f, nsym, Mass(t.right, f, nsym)) && ChildrenAtMost(t.right, f, nsym, Mass(t.left, f, nsym))
  {
    hide Nodes, Leaves;
  }

  lemma {:induction false} TallerChild(a: Tree, b: Tree, f: seq<nat>, nsym: nat)
    requires WellFormed(a, nsym) && WellFormed(b, nsym) && |f| == nsym && Greedy(a, f, nsym)
    requires ChildrenAtMost(a, f, nsym, Mass(b, f, nsym)) && Mass(b, f, nsym) >= 1
    requires Mass(a, f, nsym) >= LeastMass(Height(a))
    ensures Mass(a, f, nsym) + Mass(b, f, nsym) >= LeastMass(1 + Height(a))
    decreases a, 0
  {
    if a.Node? {
      var c := if Height(a.left) >= Height(a.right) then a.left else a.right;
      HeightMass(c, f, nsym);
    }
  }

  lemma {:induction false} LeastMassGrows(k: nat)
    ensures LeastMass(2 * k) >= Pow2(k) && LeastMass(2 * k + 1) >= LeastMass(2 * k)
  {
    if k > 0 {
      LeastMassGrows(k - 1);
    }
  }

  lemma {:induction false} LeastMassMonotone(h: nat, h': nat)
    requires h <= h'
    ensures LeastMass(h) <= LeastMass(h')
    decreases h'
  {
    if h < h' {
      LeastMassMonotone(h, h' - 1);
    }
  }

  /** With 32-bit frequencies no code is deeper than 63, so a depth fits in a byte. */
  lemma HeightFitsByte(t: Tree, f: seq<nat>, nsym: nat)
    requires WellFormed(t, nsym) && |f| == nsym && Greedy(t, f, nsym) && Mass(t, f, nsym) < 0x1_0000_0000
    ensures Height(t) < 64
  {
    hide *;
    HeightMass(t, f, nsym);
    ManyLevelsHeavy();
    if Height(t) >= 64 {
      LeastMassMonotone(64, Height(t));
    }
  }

  lemma ManyLevelsHeavy()
    ensures LeastMass(64) >= 0x1_0000_0000
  {
    hide *;
    LeastMassGrows(32);
    Pow2Values();
    Pow2Add(16, 16);
  }

  lemma {:induction false} DepthHeight(t: Tree, i: nat)
    requires i in Leaves(t)
    ensures Depth(t, i) <= Height(t)
    ensures t.Node? ==> Depth(t, i) >= 1
  {
    if t.Node? {
      if i in Leaves(t.left) {
        DepthHeight(t.left, i);
      } else {
        DepthHeight(t.right, i);
      }
    }
  }

  // ----- Kraft sums of trees, with depths cut off at max -----

  function Min(a: nat, b: nat): nat { if a < b then a else b }

  function TreeKraft(t: Tree, d: nat, max: nat): nat
  {
    match t
    case Leaf(_) => Pow2(max - Min(d, max))
    case Node(_, l, r) => TreeKraft(l, d + 1, max) + TreeKraft(r, d + 1, max)
  }

  /** The part of TreeKraft due to leaves above the cut. */
  function ShortKraft(t: Tree, d: nat, max: nat): nat
  {
    match t
    case Leaf(_) => if d < max then Pow2(max - d) else 0
    case Node(_, l, r) => ShortKraft(l, d + 1, max) + ShortKraft(r, d + 1, max)
  }

  lemma {:induction false} BelowCut(t: Tree, d: nat, max: nat)
    requires d >= max
    ensures TreeKraft(t, d, max) == LeafCount(t) && ShortKraft(t, d, max) == 0
  {
    if t.Node? {
      BelowCut(t.left, d + 1, max);
      BelowCut(t.right, d + 1, max);
    }
  }

  /** Cutting the depths can only overfill the code, by at most leaves - 1 - max when it does at all. */
  lemma {:induction false} CutExcess(t: Tree, d: nat, max: nat)
    requires d <= max
    ensures var e := TreeKraft(t, d, max) - Pow2(max - d);
            0 <= e && (e == 0 || e <= LeafCount(t) - 1 - (max - d))
    ensures ShortKraft(t, d, max) <= Pow2(max - d)
    ensures ShortKraft(t, d, max) == Pow2(max - d) ==> TreeKraft(t, d, max) == Pow2(max - d)
  {
    if d == max {
      BelowCut(t, d, max);
      LeafCountPositive(t);
    } else if t.Node? {
      CutExcess(t.left, d + 1, max);
      CutExcess(t.right, d + 1, max);
      LeafCountPositive(t.left);
      LeafCountPositive(t.right);
    }
  }

  lemma {:induction false} LeafCountPositive(t: Tree)
    ensures LeafCount(t) >= 1
  {
    if t.Node? {
      LeafCountPositive(t.left);
    }
  }
}
