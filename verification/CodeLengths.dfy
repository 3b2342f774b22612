/** Length-limited Huffman code lengths from symbol frequencies. */
module CodeLengths {
  import opened BitStrings
  import opened Options
  import opened Tally
  import opened HuffmanHeap
  import opened HuffmanTree
  import opened TreeBuild
  import opened TreeRepair
  import opened LengthRepair

  // ----- from a tree to an array of lengths -----

  /** Writes the cut depths of t's leaves, t's root being at depth d, into s. */
  function Plant(t: Tree, d: nat, max: nat, s: seq<nat>): (r: seq<nat>)
    requires WellFormed(t, |s|)
    ensures |r| == |s|
  {
    match t
    case Leaf(i) => s[i := HuffmanTree.Min(d, max)]
    case Node(_, l, r) => Plant(r, d + 1, max, Plant(l, d + 1, max, s))
  }

  lemma {:induction false} PlantAt(t: Tree, d: nat, max: nat, s: seq<nat>)
    requires WellFormed(t, |s|)
    ensures forall k: nat :: k < |s| ==>
              Plant(t, d, max, s)[k] == if k in Leaves(t) then HuffmanTree.Min(d + Depth(t, k), max) else s[k]
  {
    if t.Node? {
      NodesOf(t.left, |s|);
      NodesOf(t.right, |s|);
      PlantAt(t.left, d + 1, max, s);
      PlantAt(t.right, d + 1, max, Plant(t.left, d + 1, max, s));
    }
  }

  lemma {:induction false} PlantSums(t: Tree, d: nat, max: nat, s: seq<nat>)
    requires WellFormed(t, |s|) && max >= 1 && (d >= 1 || t.Node?)
    requires forall i :: i in Leaves(t) && i < |s| ==> s[i] == 0
    ensures var p := Plant(t, d, max, s);
            && Span(p, max, 1, max) == Span(s, max, 1, max) + TreeKraft(t, d, max)
            && Span(p, max, 1, max - 1) == Span(s, max, 1, max - 1) + ShortKraft(t, d, max)
            && UsedCount(p) == UsedCount(s) + LeafCount(t)
  {
    hide Span, UsedCount, Pow2;
    match t
    case Leaf(i) =>
      var v := HuffmanTree.Min(d, max);
      SpanUpdate(s, i, v, max, 1, max);
      SpanUpdate(s, i, v, max, 1, max - 1);
      UsedUpdate(s, i, v);
    case Node(_, l, r) =>
      NodesOf(l, |s|);
      NodesOf(r, |s|);
      PlantAt(l, d + 1, max, s);
      PlantSums(l, d + 1, max, s);
      PlantSums(r, d + 1, max, Plant(l, d + 1, max, s));
  }

  lemma {:induction false} ZeroSums(s: seq<nat>, max: nat, hi: nat)
    requires hi <= max && forall i :: 0 <= i < |s| ==> s[i] == 0
    ensures Span(s, max, 1, hi) == 0 && UsedCount(s) == 0
  {
    if s != [] {
      ZeroSums(s[..|s| - 1], max, hi);
    }
  }

  lemma CutDepths(t: Tree, s: seq<nat>, max: nat)
    requires WellFormed(t, |s|) && t.Node? && max >= 1 && |s| <= Pow2(max)
    requires forall i: nat :: i < |s| ==> s[i] == if i in Leaves(t) then Depth(t, i) else 0
    ensures Repairable(Cut(s, max), max)
    ensures UsedCount(Cut(s, max)) == LeafCount(t) && Span(Cut(s, max), max, 1, max) == TreeKraft(t, 0, max)
    ensures Excess(Cut(s, max), max) == 0 || Excess(Cut(s, max), max) <= LeafCount(t) - 1 - max
  {
    var zeros := seq(|s|, _ => 0);
    var c := Plant(t, 0, max, zeros);
    PlantAt(t, 0, max, zeros);
    assert Cut(s, max) == c;
    PlantSums(t, 0, max, zeros);
    ZeroSums(zeros, max, max);
    ZeroSums(zeros, max, max - 1);
    CutExcess(t, 0, max);
    UsedAtMost(c);
  }

  // ----- the contract -----

  /** A full prefix code of at most max bits. */
  ghost predicate FullCode(lengths: seq<nat>, max: nat)
  {
    && (forall i :: 0 <= i < |lengths| ==> lengths[i] <= max)
    && Span(lengths, max, 1, max) == Pow2(max)
  }

  /** Which symbols get a code: the used ones, or two neighbours when fewer than two are used. */
  ghost predicate CodedSymbols(freqs: seq<nat>, lengths: seq<nat>)
  {
    && |lengths| == |freqs|
    && (forall i :: 0 <= i < |freqs| && freqs[i] > 0 ==> lengths[i] > 0)
    && (UsedCount(freqs) >= 2 ==> forall i :: 0 <= i < |freqs| && lengths[i] > 0 ==> freqs[i] > 0)
    && (UsedCount(freqs) < 2 ==> UsedCount(lengths) == 2)
  }

  /** The leaf depths of a tree built from the used symbols by joining the two lightest roots until one is left. */
  ghost predicate HuffmanDepths(freqs: seq<nat>, depths: seq<nat>)
  {
    |depths| == |freqs| >= 1 && exists t: Tree :: Reaches(Seedlings(freqs), freqs, t) && DepthsOf(t, freqs, depths)
  }

  ghost predicate DepthsOf(t: Tree, freqs: seq<nat>, depths: seq<nat>)
    requires |depths| == |freqs|
  {
    && (forall i: nat :: i < |freqs| ==> (i in Leaves(t) <==> freqs[i] > 0))
    && (forall i: nat :: i < |freqs| ==> depths[i] == if i in Leaves(t) then Depth(t, i) else 0)
  }

  lemma StartInStep(freqs: seq<nat>)
    requires UsedCount(freqs) >= 1
    ensures var g, len := Seedlings(freqs), UsedCount(freqs);
            InRange(StartHeap(freqs), g.freq, len) && InStep(g, Heaped(StartHeap(freqs), g.freq, len, len), len, freqs)
  {
    hide InRange, Ordered, Live, InStep, Heaped, UsedCount, UsedList, StartHeap;
    var h, freq, len := StartHeap(freqs), Seedlings(freqs).freq, UsedCount(freqs);
    StartHeapShape(freqs);
    SelectedInRange(freqs, h, freq, len);
    NothingBelow(h, freq, len);
    HeapedOrdered(h, freq, len, len);
    SeedlingsInStep(freqs, Heaped(h, freq, len, len));
  }

  lemma StartHeapShape(freqs: seq<nat>)
    requires UsedCount(freqs) >= 1
    ensures var h, freq, len := StartHeap(freqs), Seedlings(freqs).freq, UsedCount(freqs);
            len < |h| && |freq| == 2 * |freqs| && h[1..len + 1] == UsedList(freqs)
  {
    assert |UsedList(freqs)| == UsedCount(freqs);
  }

  /** The tree the builder makes of the frequencies: the heap decides between equally light roots. */
  ghost function HuffmanTreeOf(freqs: seq<nat>): Tree
    requires UsedCount(freqs) >= 1
  {
    StartInStep(freqs);
    var g, len := Seedlings(freqs), UsedCount(freqs);
    TreeOf(g, Heaped(StartHeap(freqs), g.freq, len, len), len, freqs)
  }

  /** The depths of the used symbols in that tree, and 0 for the others. */
  ghost function CodeDepths(freqs: seq<nat>): (depths: seq<nat>)
    ensures |depths| == |freqs|
  {
    seq(|freqs|, i requires 0 <= i < |freqs| =>
      if UsedCount(freqs) >= 1 && i in Leaves(HuffmanTreeOf(freqs)) then Depth(HuffmanTreeOf(freqs), i) else 0)
  }

  lemma TreeOfSymbols(freqs: seq<nat>)
    requires UsedCount(freqs) >= 1
    ensures var t := HuffmanTreeOf(freqs);
            && Reaches(Seedlings(freqs), freqs, t) && WellFormed(t, |freqs|) && Greedy(t, freqs, |freqs|)
            && forall i: nat :: i < |freqs| ==> (i in Leaves(t) <==> freqs[i] > 0)
  {
    hide UsedCount, UsedList, Seedlings, StartHeap, Heaped, InStep, Leaves, WellFormed, Greedy, TreeOf, Reaches, InRange;
    var t, g, len := HuffmanTreeOf(freqs), Seedlings(freqs), UsedCount(freqs);
    StartInStep(freqs);
    TreeOfReached(g, Heaped(StartHeap(freqs), g.freq, len, len), len, freqs);
    SeedlingsValid(freqs);
    ReachesGreedy(g, freqs, t);
    LeavesUsed(t, freqs);
  }

  /** These depths are those of a tree built by joining two lightest roots. */
  lemma CodeDepthsHuffman(freqs: seq<nat>)
    requires UsedCount(freqs) >= 1
    ensures HuffmanDepths(freqs, CodeDepths(freqs)) && DepthsOf(HuffmanTreeOf(freqs), freqs, CodeDepths(freqs))
  {
    hide UsedCount, UsedList, Seedlings, Leaves, Depth, HuffmanTreeOf, Reaches;
    TreeOfSymbols(freqs);
    assert freqs != [] by {
      NothingUsed(freqs);
    }
  }

  lemma NothingUsed(freqs: seq<nat>)
    ensures freqs == [] ==> UsedCount(freqs) == 0
  {
  }

  lemma TwoCodes(n: nat, a: nat, b: nat, max: nat)
    requires a < n && b < n && a != b && max >= 1
    ensures var s := seq(n, _ => 0)[a := 1][b := 1]; FullCode(s, max) && UsedCount(s) == 2
  {
    var zeros: seq<nat> := seq(n, _ => 0);
    ZeroSums(zeros, max, max);
    SpanUpdate(zeros, a, 1, max, 1, max);
    SpanUpdate(zeros[a := 1], b, 1, max, 1, max);
    UsedUpdate(zeros, a, 1);
    UsedUpdate(zeros[a := 1], b, 1);
  }

  lemma StuckCount(c: seq<nat>, max: nat, n: nat)
    requires UsedCount(c) == n && n * Excess(c, max) >= Pow2(max)
    requires Excess(c, max) == 0 || Excess(c, max) <= n - 1 - max
    ensures n * (n - 1 - max) >= Pow2(max)
  {
    hide UsedCount, Pow2, Excess;
    MulLe(Excess(c, max), n - 1 - max, n);
  }

  /**
    * The code lengths that the frequencies determine: the cut depths of their tree, repaired. With fewer than two used
    * symbols one bit each goes to the used one, or the first, and its neighbour.
    */
  ghost function TreeLengths(freqs: seq<nat>, max: nat): (r: Option<seq<nat>>)
    requires |freqs| >= 2
    ensures r.Some? ==> |r.value| == |freqs|
  {
    if UsedCount(freqs) >= 2 then Repaired(Cut(CodeDepths(freqs), max), 0, max)
    else
      var sym := if UsedCount(freqs) == 1 then UsedList(freqs)[0] else 0;
      assert UsedCount(freqs) == 1 ==> sym in UsedList(freqs);
      Some(TwoOnes(|freqs|, sym))
  }

  function TwoOnes(n: nat, sym: nat): (s: seq<nat>)
    requires sym < n
    ensures |s| == n
  {
    NextBelow(sym, n);
    seq(n, _ => 0)[sym := 1][(sym + 1) % n := 1]
  }

  lemma NextBelow(sym: nat, n: nat)
    requires sym < n
    ensures (sym + 1) % n < n
  {
  }

  /**
    * Code lengths for the given frequencies, or None where the repair would look for a symbol below every used length:
    * for 13 bits exactly where the cut depths of the Huffman tree cannot be repaired.
    */
  method TreeGen(freqs: seq<nat>, max: nat) returns (r: Option<seq<nat>>)
    requires |freqs| >= 2 && max >= 1 && |freqs| <= Pow2(max) && Sum(freqs) < 0x1_0000_0000
    ensures r.Some? ==> FullCode(r.value, max) && CodedSymbols(freqs, r.value)
    ensures UsedCount(freqs) >= 2 && r.Some? ==> CanRepair(Cut(CodeDepths(freqs), max), max)
    ensures UsedCount(freqs) >= 2 && max == 13 && |freqs| <= 316 ==> (r.Some? <==> CanRepair(Cut(CodeDepths(freqs), max), max))
    ensures UsedCount(freqs) < 2 ==> r.Some?
    ensures r.None? ==> UsedCount(freqs) * (UsedCount(freqs) - 1 - max) >= Pow2(max)
    ensures r == TreeLengths(freqs, max)
  {
    hide UsedCount, UsedList, FullCode, CodedSymbols, Sum, Pow2, CodeDepths, CanRepair, Seedlings, TreeLengths, TwoOnes;
    var nsym := |freqs|;
    var freq := new nat[2 * nsym](i => if 0 <= i < nsym then freqs[i] else 0);
    assert freq[..] == freqs + seq(nsym, _ => 0);
    var heap := new nat[nsym + 1](_ => 0);
    var heapLen := SelectUsed(freqs, heap);
    if heapLen > 1 {
      r := BuildAndRepair(freqs, heap, heapLen, freq, max);
    } else if heapLen == 1 {
      var sym := heap[1];
      StartHeapShape(freqs);
      assert heap[1..2] == [sym];
      OneUsed(freqs, heap[1..2], sym);
      NextDiffers(sym, nsym);
      TwoCodes(nsym, sym, (sym + 1) % nsym, max);
      r := Some(TwoOnes(nsym, sym));
      TwoOnesAre(nsym, sym);
      FewCoded(freqs, r.value);
      OneLengths(freqs, sym, max);
    } else {
      NoneUsed(freqs);
      TwoCodes(nsym, 0, 1, max);
      r := Some(TwoOnes(nsym, 0));
      TwoOnesAre(nsym, 0);
      FewCoded(freqs, r.value);
      NoneLengths(freqs, max);
    }
  }

  lemma TwoOnesAre(n: nat, sym: nat)
    requires sym < n && n >= 2
    ensures (sym + 1) % n < n && TwoOnes(n, sym) == seq(n, _ => 0)[sym := 1][(sym + 1) % n := 1] && (sym == 0 ==> (sym + 1) % n == 1)
  {
    NextBelow(sym, n);
  }

  lemma OneLengths(freqs: seq<nat>, sym: nat, max: nat)
    requires |freqs| >= 2 && UsedList(freqs) == [sym] && sym < |freqs|
    ensures TreeLengths(freqs, max) == Some(TwoOnes(|freqs|, sym))
  {
    hide UsedCount, TwoOnes;
  }

  lemma NoneLengths(freqs: seq<nat>, max: nat)
    requires |freqs| >= 2 && UsedCount(freqs) == 0
    ensures TreeLengths(freqs, max) == Some(TwoOnes(|freqs|, 0))
  {
    hide UsedCount, TwoOnes;
  }

  lemma NextDiffers(sym: nat, n: nat)
    requires sym < n && n >= 2
    ensures (sym + 1) % n < n && (sym + 1) % n != sym
  {
    if sym + 1 == n {
      DivModUnique(1, n, 0);
    } else {
      DivModUnique(0, n, sym + 1);
    }
  }

  lemma FewCoded(freqs: seq<nat>, lengths: seq<nat>)
    requires |lengths| == |freqs| && UsedCount(freqs) < 2 && UsedCount(lengths) == 2
    requires forall i :: 0 <= i < |freqs| && freqs[i] > 0 ==> lengths[i] > 0
    ensures CodedSymbols(freqs, lengths)
  {
    hide UsedCount;
  }

  lemma NoneUsed(freqs: seq<nat>)
    requires UsedCount(freqs) == 0
    ensures forall i: nat :: i < |freqs| ==> freqs[i] == 0
  {
    assert UsedList(freqs) == [];
    forall i: nat | i < |freqs| ensures freqs[i] == 0 {
      assert i !in UsedList(freqs);
    }
  }

  lemma OneUsed(freqs: seq<nat>, list: seq<nat>, sym: nat)
    requires list == UsedList(freqs) && list == [sym]
    ensures sym < |freqs| && forall i: nat :: i < |freqs| && freqs[i] > 0 ==> i == sym
  {
    assert sym in list;
    forall i: nat | i < |freqs| && freqs[i] > 0 ensures i == sym {
      assert i in list;
    }
  }

  method BuildAndRepair(freqs: seq<nat>, heap: array<nat>, heapLen: nat, freq: array<nat>, max: nat) returns (r: Option<seq<nat>>)
    requires |freqs| >= 2 && max >= 1 && |freqs| <= Pow2(max) && Sum(freqs) < 0x1_0000_0000
    requires heap != freq && freq[..] == freqs + seq(|freqs|, _ => 0)
    requires heapLen == UsedCount(freqs) <= |freqs| && heapLen >= 2 && heap[..] == StartHeap(freqs)
    modifies heap, freq
    ensures r.Some? ==> FullCode(r.value, max) && CodedSymbols(freqs, r.value) && CanRepair(Cut(CodeDepths(freqs), max), max)
    ensures max == 13 && |freqs| <= 316 ==> (r.Some? <==> CanRepair(Cut(CodeDepths(freqs), max), max))
    ensures r.None? ==> UsedCount(freqs) * (UsedCount(freqs) - 1 - max) >= Pow2(max)
    ensures r == TreeLengths(freqs, max)
  {
    hide Seedlings, StartHeap, WellFormed, Greedy, Repairable, Span, UsedCount, UsedList, Leaves, Depth, CanRepair, Sum, Pow2,
         HuffmanTreeOf, CodeDepths, Repaired, InOrder, OneBit;
    var lengths;
    ghost var t;
    lengths, t := BuildLengths(freqs, heap, heapLen, freq);
    ghost var depths := lengths[..];
    UsedAtMost(freqs);
    CutDepths(t, depths, max);
    LeafDepths(t, freqs, depths);
    SameUsedCount(freqs, Cut(depths, max));
    var ok := RepairLengths(lengths, max);
    if !ok {
      StuckCount(Cut(depths, max), max, UsedCount(freqs));
      return None;
    }
    return Some(lengths[..]);
  }

  /** The tree and the depths of its leaves. */
  method BuildLengths(freqs: seq<nat>, heap: array<nat>, heapLen: nat, freq: array<nat>)
    returns (lengths: array<nat>, ghost t: Tree)
    requires Sum(freqs) < 0x1_0000_0000 && heap != freq && freq[..] == freqs + seq(|freqs|, _ => 0)
    requires heapLen == UsedCount(freqs) <= |freqs| && heapLen >= 2 && heap[..] == StartHeap(freqs)
    modifies heap, freq
    ensures fresh(lengths) && t.Node? && WellFormed(t, |freqs|) && lengths[..] == CodeDepths(freqs)
    ensures |lengths[..]| == |freqs| && DepthsOf(t, freqs, lengths[..])
  {
    hide InStep, Ordered, InRange, Live, Linked, Descends, WellFormed, Greedy, UsedCount, UsedList, Leaves, Depth, Reaches, Sum,
         TreeOf, Heaped, StartHeap;
    var nsym := |freqs|;
    var father := new int[2 * nsym](_ => 0);
    StartInStep(freqs);
    HeapLength(freqs);
    Heapify(freq[..], heap, heapLen);
    assert father[..] == seq(2 * nsym, _ => 0);
    t := BuildCodeTree(freqs, heap, heapLen, freq, father, Seedlings(freqs));
    assert t == HuffmanTreeOf(freqs);
    lengths := GenCodeLengths(freqs, father[..], t);
    assert lengths[..] == CodeDepths(freqs);
  }

  lemma HeapLength(freqs: seq<nat>)
    ensures |StartHeap(freqs)| == |freqs| + 1
  {
  }

  lemma SelectedInRange(freqs: seq<nat>, h: seq<nat>, freq: seq<nat>, len: nat)
    requires len < |h| && |freq| == 2 * |freqs| && h[1..len + 1] == UsedList(freqs)
    ensures InRange(h, freq, len) && Live(h, len) == multiset(UsedList(freqs))
  {
    forall j | 1 <= j <= len ensures h[j] < |freq| {
      assert h[1..len + 1][j - 1] == h[j];
      assert h[j] in UsedList(freqs);
    }
  }

  lemma LeafDepths(t: Tree, freqs: seq<nat>, depths: seq<nat>)
    requires t.Node? && |depths| == |freqs|
    requires forall i: nat :: i < |freqs| ==> (i in Leaves(t) <==> freqs[i] > 0)
    requires forall i: nat :: i < |freqs| ==> depths[i] == if i in Leaves(t) then Depth(t, i) else 0
    ensures forall i: nat :: i < |freqs| ==> (depths[i] > 0 <==> freqs[i] > 0)
  {
    forall i: nat | i < |freqs| ensures depths[i] > 0 <==> freqs[i] > 0 {
      if i in Leaves(t) {
        DepthHeight(t, i);
      }
    }
  }
}
