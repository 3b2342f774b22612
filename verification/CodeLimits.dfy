/** Which frequencies can lead to lengths beyond repair: never few, light or short blocks. */
module CodeLimits {
  import opened BitStrings
  import opened Tally
  import opened HuffmanTree
  import opened TreeBuild
  import opened TreeRepair
  import opened LengthRepair
  import opened CodeLengths
  import opened BlockWriter

  lemma {:induction false} UncutKraft(t: Tree, d: nat, max: nat)
    requires d + Height(t) <= max
    ensures TreeKraft(t, d, max) == Pow2(max - d)
  {
    if t.Node? {
      UncutKraft(t.left, d + 1, max);
      UncutKraft(t.right, d + 1, max);
    }
  }

  lemma LeastMass14()
    ensures LeastMass(14) == 987
  {
    assert LeastMass(4) == 8 && LeastMass(5) == 13;
    assert LeastMass(8) == 55 && LeastMass(9) == 89;
    assert LeastMass(12) == 377 && LeastMass(13) == 610;
  }

  /** A Huffman tree of less than 987 occurrences is at most 13 deep. */
  lemma LightTree(t: Tree, f: seq<nat>)
    requires WellFormed(t, |f|) && Greedy(t, f, |f|) && Sum(f) < 987
    ensures Height(t) <= 13
  {
    hide Sum, Height;
    MassBound(t, f);
    HeightMass(t, f, |f|);
    LeastMass14();
    if Height(t) >= 14 {
      LeastMassMonotone(14, Height(t));
    }
  }

  lemma TwoUsedNode(t: Tree, f: seq<nat>)
    requires UsedCount(f) >= 2 && forall i: nat :: i < |f| && f[i] > 0 ==> i in Leaves(t)
    ensures t.Node?
  {
    hide UsedCount;
    if t.Leaf? {
      UsedWithin(f, {t.sym});
    }
  }

  /** What the depths of a Huffman tree of at least two symbols look like when cut at 13. */
  lemma HuffmanCut(f: seq<nat>, depths: seq<nat>)
    requires HuffmanDepths(f, depths) && UsedCount(f) >= 2 && |f| <= 316
    ensures var c := Cut(depths, 13);
            && Repairable(c, 13) && UsedCount(c) == UsedCount(f)
            && (Excess(c, 13) == 0 || Excess(c, 13) <= UsedCount(f) - 14)
            && (Sum(f) < 987 ==> Excess(c, 13) == 0)
  {
    hide UsedCount, Sum, Reaches, Seedlings, Leaves, Depth, Greedy, WellFormed, Span, Repairable, Height, Pow2;
    var t: Tree :| Reaches(Seedlings(f), f, t) && DepthsOf(t, f, depths);
    SeedlingsValid(f);
    ReachesGreedy(Seedlings(f), f, t);
    TwoUsedNode(t, f);
    Pow2Values();
    CutDepths(t, depths, 13);
    LeafDepths(t, f, depths);
    SameUsedCount(f, Cut(depths, 13));
    if Sum(f) < 987 {
      LightTree(t, f);
      UncutKraft(t, 0, 13);
    }
  }

  /** Counts without a code have at least 192 symbols. */
  lemma NoCodeWide(f: seq<nat>)
    requires !HasCode(f) && |f| <= 316
    ensures UsedCount(f) >= 192
  {
    hide UsedCount, HuffmanDepths, Span, Repairable, Pow2, Sum, CodeDepths;
    CodeDepthsHuffman(f);
    HuffmanCut(f, CodeDepths(f));
    UsedAtMost(f);
    NothingShort(Cut(CodeDepths(f), 13));
  }

  lemma NothingShort(c: seq<nat>)
    requires Repairable(c, 13) && !CanRepair(c, 13) && UsedCount(c) <= 316 && Excess(c, 13) <= UsedCount(c) - 14
    requires forall i :: 0 <= i < |c| ==> c[i] <= 13
    ensures UsedCount(c) >= 192
  {
    hide UsedCount, Span, Repairable, Pow2;
    var e := Excess(c, 13);
    var top := Top(e);
    PowersUpTo9();
    if top >= 9 {
      Pow2Monotone(9, top);
    }
    ShortSpanIff(c, 13, top);
    FewSymbolsShort(c, top, false);
    Pow2Add(13 - top, top);
    MostSlots(UsedCount(c), e, top);
  }

  /** 2^(13 - top) + 2^top is least for top 6 and 7. */
  lemma MostSlots(n: int, e: int, top: nat)
    requires top <= 8 && n * Pow2(top) >= 8192 + e * Pow2(top) && e >= Pow2(top)
    ensures n >= 192
  {
    PowersUpTo9();
    assert top == 0 || top == 1 || top == 2 || top == 3 || top == 4 || top == 5 || top == 6 || top == 7 || top == 8;
  }

  /** Counts without a code add up to at least 987. */
  lemma NoCodeHeavy(f: seq<nat>)
    requires !HasCode(f) && |f| <= 316
    ensures Sum(f) >= 987
  {
    hide UsedCount, HuffmanDepths, Span, Repairable, Pow2, Sum, CodeDepths;
    CodeDepthsHuffman(f);
    HuffmanCut(f, CodeDepths(f));
  }
}
