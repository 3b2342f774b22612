/** Texts that neither block coder can take: many equally frequent bytes, and as many that occur once. */
module CrowdedBlocks {
  import opened BitStrings
  import opened Options
  import opened Tally
  import opened Tables
  import opened LzCodes
  import opened BlockTokens
  import opened TextCover
  import opened TreeRepair
  import opened LengthRepair
  import opened CodeLengths
  import opened DyadicTrees
  import opened BlockWriter
  import opened Rans

  // ----- sums over stretches of equal values -----

  lemma {:induction false} SumRun(f: seq<nat>, lo: nat, hi: nat, v: nat)
    requires lo <= hi <= |f| && forall i :: lo <= i < hi ==> f[i] == v
    ensures Sum(f[..hi]) == Sum(f[..lo]) + (hi - lo) * v
    decreases hi
  {
    if lo < hi {
      SumRun(f, lo, hi - 1, v);
      assert f[..hi][..hi - 1] == f[..hi - 1];
      MulAddLeft(hi - 1 - lo, 1, v);
    }
  }

  lemma {:induction false} SpanRun(f: seq<nat>, lo: nat, hi: nat, v: nat)
    requires lo <= hi <= |f| && forall i :: lo <= i < hi ==> f[i] == v
    ensures Span(f[..hi], 13, 1, 13) == Span(f[..lo], 13, 1, 13) + (hi - lo) * Slots(v, 13, 1, 13)
    decreases hi
  {
    hide Slots;
    if lo < hi {
      SpanRun(f, lo, hi - 1, v);
      assert f[..hi][..hi - 1] == f[..hi - 1];
      MulAddLeft(hi - 1 - lo, 1, Slots(v, 13, 1, 13));
    }
  }

  lemma {:induction false} UsedAtLeast(f: seq<nat>, n: nat)
    requires n <= |f| && forall i :: 0 <= i < n ==> f[i] > 0
    ensures UsedCount(f) >= n
  {
    if |f| > n {
      UsedAtLeast(f[..|f| - 1], n);
    } else if n > 0 {
      UsedAtLeast(f[..n - 1], n - 1);
    }
  }

  /** a at the first m places, b at the next m, then zeros up to the end marks at n and n + 1. */
  ghost predicate Steps(f: seq<nat>, m: nat, a: nat, b: nat, n: nat)
  {
    && 2 * m <= n < |f|
    && forall i :: 0 <= i < |f| ==> f[i] == if i < m then a else if i < 2 * m then b else if n <= i <= n + 1 then b else 0
  }

  lemma StepsSum(f: seq<nat>, m: nat, a: nat, b: nat, n: nat)
    requires Steps(f, m, a, b, n)
    ensures Sum(f) == m * a + m * b + if n + 1 < |f| then 2 * b else b
  {
    hide Sum;
    NothingSum(f);
    SumRun(f, 0, m, a);
    SumRun(f, m, 2 * m, b);
    SumRun(f, 2 * m, n, 0);
    if n + 1 < |f| {
      SumRun(f, n, n + 2, b);
      SumRun(f, n + 2, |f|, 0);
    } else {
      SumRun(f, n, n + 1, b);
    }
    assert f[..|f|] == f;
  }

  lemma NothingSum(f: seq<nat>)
    ensures Sum(f[..0]) == 0 && Span(f[..0], 13, 1, 13) == 0
  {
  }

  // ----- the text -----

  /** The pairs a b, a b + 1, ..., a h - 1, a + 1 a + 2, ...: every two numbers below h once; then each low byte twice around a high one. */
  function PairsFrom(h: nat, a: nat, b: nat): (s: seq<byte>)
    requires a < b < h && 2 * h <= 256
    ensures |s| >= 3 && s[0] == a && s[1] == b
    decreases h - a, h - b
  {
    [a, b] + if b + 1 < h then PairsFrom(h, a, b + 1) else if a + 2 < h then PairsFrom(h, a + 1, a + 2) else Around(h)
  }

  lemma {:induction false} PairsLength(h: nat, a: nat, b: nat)
    requires a < b < h && 2 * h <= 256
    ensures |PairsFrom(h, a, b)| == 2 * (h - b) + (h - 1 - a) * (h - 2 - a) + 3 * h
    decreases h - a, h - b
  {
    if b + 1 < h {
      PairsLength(h, a, b + 1);
    } else if a + 2 < h {
      PairsLength(h, a + 1, a + 2);
      TriangleStep(h - 1 - a);
    }
  }

  lemma TriangleStep(n: nat)
    requires n >= 1
    ensures n * (n - 1) == 2 * (n - 1) + (n - 1) * (n - 2)
  {
  }

  function Around(h: nat): (s: seq<byte>)
    requires 2 * h <= 256
    ensures |s| == 3 * h
  {
    seq(3 * h, i requires 0 <= i < 3 * h => if i % 3 == 1 then h + i / 3 else i / 3)
  }

  /** Every byte below h occurs h + 1 times, every byte from h to 2h - 1 once. */
  function CrowdedText(h: nat): (s: seq<byte>)
    requires 2 <= h && 2 * h <= 256
    ensures |s| == h * (h + 2)
  {
    PairsLength(h, 0, 1);
    PairsFrom(h, 0, 1)
  }

  // ----- no three bytes occur twice: a rank that rises along the text -----

  function Rank(h: nat, x: byte, y: byte, z: byte): int
  {
    if z >= h then 1000000 + 3 * (z - h)
    else if y >= h then 1000000 + 3 * (y - h) + 1
    else if x >= h then 1000000 + 3 * (x - h) + 2
    else if y < x then (if z == y + 1 then 1000 * y else 1000 * y + 2 * x + 1)
    else if z == x then 1000 * x + 2 * y else 1000 * x + 2 * y + 1
  }

  function RankAt(h: nat, s: seq<byte>, i: nat): int
    requires i + 2 < |s|
  {
    Rank(h, s[i], s[i + 1], s[i + 2])
  }

  ghost predicate Rising(h: nat, s: seq<byte>)
  {
    forall i: nat :: i + 3 < |s| ==> RankAt(h, s, i) < RankAt(h, s, i + 1)
  }

  lemma RisingCons(h: nat, x: byte, s: seq<byte>)
    requires Rising(h, s) && |s| >= 3 && Rank(h, x, s[0], s[1]) < Rank(h, s[0], s[1], s[2])
    ensures Rising(h, [x] + s)
  {
    hide Rank;
    var t := [x] + s;
    forall i: nat | i + 3 < |t| ensures RankAt(h, t, i) < RankAt(h, t, i + 1) {
      if i > 0 {
        assert RankAt(h, t, i) == RankAt(h, s, i - 1) && RankAt(h, t, i + 1) == RankAt(h, s, i);
      }
    }
  }

  lemma AroundRises(h: nat)
    requires 2 * h <= 256
    ensures Rising(h, Around(h))
  {
    var s := Around(h);
    forall i: nat | i + 3 < |s| ensures RankAt(h, s, i) < RankAt(h, s, i + 1) {
      var j := i / 3;
      if i % 3 == 0 {
        assert s[i] == j && s[i + 1] == h + j && s[i + 2] == j && s[i + 3] == j + 1;
      } else if i % 3 == 1 {
        assert s[i] == h + j && s[i + 1] == j && s[i + 2] == j + 1 && s[i + 3] == h + j + 1;
      } else {
        assert s[i] == j && s[i + 1] == j + 1 && s[i + 2] == h + j + 1 && s[i + 3] == j + 1;
      }
    }
  }

  /** The ranks of the three bytes from a, from b and from the next pair. */
  lemma PairRanks(h: nat, a: nat, b: nat, n0: byte, n1: byte, n2: byte)
    requires a < b < h && 3 <= h && 2 * h <= 256
    requires if b + 1 < h then n0 == a && n1 == b + 1 && Rank(h, n0, n1, n2) >= 1000 * a + 2 * b + 2
             else if a + 2 < h then n0 == a + 1 && n1 == a + 2 && Rank(h, n0, n1, n2) >= 1000 * (a + 1) + 2 * (a + 2)
             else n0 == 0 && n1 == h && n2 == 0
    ensures 1000 * a + 2 * b <= Rank(h, a, b, n0) < Rank(h, b, n0, n1) < Rank(h, n0, n1, n2)
  {
  }

  lemma {:induction false} PairsRise(h: nat, a: nat, b: nat)
    requires a < b < h && 3 <= h && 2 * h <= 256
    ensures var s := PairsFrom(h, a, b); Rising(h, s) && |s| >= 3 && Rank(h, s[0], s[1], s[2]) >= 1000 * a + 2 * b
    decreases h - a, h - b
  {
    hide Rising, Rank;
    var s := PairsFrom(h, a, b);
    var rest := if b + 1 < h then PairsFrom(h, a, b + 1) else if a + 2 < h then PairsFrom(h, a + 1, a + 2) else Around(h);
    assert s == [a as byte] + ([b as byte] + rest);
    if b + 1 < h {
      PairsRise(h, a, b + 1);
    } else if a + 2 < h {
      PairsRise(h, a + 1, a + 2);
    } else {
      AroundRises(h);
      assert rest[0] == 0 && rest[1] == h && rest[2] == 0;
    }
    PairRanks(h, a, b, rest[0], rest[1], rest[2]);
    RisingCons(h, b, rest);
    RisingCons(h, a, [b as byte] + rest);
  }

  lemma {:induction false} RankOrder(h: nat, s: seq<byte>, i: nat, j: nat)
    requires Rising(h, s) && i < j && j + 2 < |s|
    ensures RankAt(h, s, i) < RankAt(h, s, j)
    decreases j
  {
    hide RankAt;
    if i < j - 1 {
      RankOrder(h, s, i, j - 1);
    }
    assert RankAt(h, s, j - 1) < RankAt(h, s, j - 1 + 1);
  }

  lemma CrowdedTextRepeatsNothing(h: nat)
    requires 3 <= h && 2 * h <= 256
    ensures NoRepeats(CrowdedText(h))
  {
    hide PairsFrom, Rising, Rank;
    var s := CrowdedText(h);
    PairsRise(h, 0, 1);
    forall i: nat, j: nat | i < j && j + 2 < |s| ensures Three(s, i) != Three(s, j) {
      RankOrder(h, s, i, j);
    }
  }

  // ----- how often its bytes occur -----

  lemma {:induction false} AroundCounts(h: nat, k: nat, v: nat)
    requires k <= h && 2 * h <= 256
    ensures CountOf(Around(h)[..3 * k], v) == if v < k then 2 else if h <= v < h + k then 1 else 0
  {
    if k > 0 {
      AroundCounts(h, k - 1, v);
      var s := Around(h);
      var three: seq<nat> := [k - 1, h + k - 1, k - 1];
      assert s[..3 * k] == s[..3 * (k - 1)] + three;
      CountConcat(s[..3 * (k - 1)], three, v);
      assert three == [k - 1, h + k - 1] + [k - 1];
      CountConcat([k - 1, h + k - 1], [k - 1], v);
      OfTwo(k - 1, h + k - 1);
      OfOne(k - 1);
    }
  }

  lemma {:induction false} PairCounts(h: nat, a: nat, b: nat, v: nat)
    requires a < b < h && 2 * h <= 256
    ensures CountOf(PairsFrom(h, a, b), v)
            == (if v == a then h - b else if a < v < h then h - 2 - a + (if b <= v then 1 else 0) else 0)
               + (if v < h then 2 else if v < 2 * h then 1 else 0)
    decreases h - a, h - b
  {
    hide CountOf;
    var rest := if b + 1 < h then PairsFrom(h, a, b + 1) else if a + 2 < h then PairsFrom(h, a + 1, a + 2) else Around(h);
    if b + 1 < h {
      PairCounts(h, a, b + 1, v);
    } else if a + 2 < h {
      PairCounts(h, a + 1, a + 2, v);
    } else {
      AroundCounts(h, h, v);
      assert Around(h)[..3 * h] == Around(h);
    }
    CountConcat([a, b], rest, v);
    OfTwo(a, b);
  }

  lemma {:induction false} LiteralSyms(s: seq<byte>)
    ensures BlockSyms(Literals(s)) == s + EndSyms()
  {
    hide EndSyms;
    if s != [] {
      LiteralSyms(s[1..]);
      assert Literals(s)[1..] == Literals(s[1..]);
      assert s == [s[0]] + s[1..];
    }
  }

  /** The block that holds the whole text as literals. */
  function CrowdedTokens(h: nat): (toks: seq<Token>)
    requires 2 <= h && 2 * h <= 256
    ensures TokensOk(toks)
  {
    Literals(CrowdedText(h))
  }

  lemma EndSymsAre()
    ensures EndSyms() == [315, 316]
  {
  }

  lemma CrowdedCounts(h: nat)
    requires 2 <= h && 2 * h <= 256
    ensures Steps(BlockCounts(CrowdedTokens(h)), h, h + 1, 1, 315)
    ensures Steps(BdCounts(CrowdedTokens(h)), h, h + 1, 1, 315)
  {
    hide CountOf, PairsFrom, EndSyms, BlockSyms;
    var s := CrowdedText(h);
    EndSymsAre();
    LiteralSyms(s);
    forall v: nat | v < NUM_SYMBOLS
      ensures BlockCounts(CrowdedTokens(h))[v]
              == if v < h then h + 1 else if v < 2 * h then 1 else if 315 <= v <= 316 then 1 else 0
    {
      PairCounts(h, 0, 1, v);
      CountConcat(s, EndSyms(), v);
      OfTwo(315, 316);
    }
  }

  // ----- Huffman: 127 bytes 128 times each, and 128 symbols once -----

  lemma CrowdedFrequencies(f: seq<nat>)
    requires Steps(f, 127, 128, 1, 315) && |f| == 316
    ensures Sum(f) == Pow2(14) && UsedCount(f) >= 254 && forall i :: 0 <= i < |f| && f[i] > 0 ==> Dyadic(f[i])
  {
    hide Sum, UsedCount, Pow2;
    StepsSum(f, 127, 128, 1, 315);
    UsedAtLeast(f, 254);
    PowersTo14();
    assert 1 == Pow2(0) && 128 == Pow2(7);
    assert Dyadic(1) && Dyadic(128);
  }

  lemma PowersTo14()
    ensures Pow2(0) == 1 && Pow2(6) == 64 && Pow2(7) == 128 && Pow2(13) == 8192 && Pow2(14) == 16384
  {
    PowersUpTo9();
  }

  lemma Pow2Injective(d: nat, e: nat)
    requires Pow2(d) == Pow2(e)
    ensures d <= e
  {
    if d > e {
      Pow2Monotone(e + 1, d);
      Pow2Next(e);
    }
  }

  lemma HuffmanShape(f: seq<nat>, depths: seq<nat>)
    requires HuffmanDepths(f, depths)
    ensures |depths| == |f|
  {
  }

  /** The frequent symbols are 7 deep and the others 14; cut at 13, 64 slots are missing, and none is shorter than 7. */
  lemma CrowdedDepths(f: seq<nat>, depths: seq<nat>)
    requires Steps(f, 127, 128, 1, 315) && |f| == 316 && HuffmanDepths(f, depths)
    ensures Steps(Cut(depths, 13), 127, 7, 13, 315) && !CanRepair(Cut(depths, 13), 13)
  {
    hide Sum, UsedCount, Pow2, HuffmanDepths, Dyadic, Cut;
    CrowdedFrequencies(f);
    PowersTo14();
    DyadicDepths(f, depths, 14);
    HuffmanShape(f, depths);
    forall i | 0 <= i < |f| ensures depths[i] == if f[i] == 128 then 7 else if f[i] == 1 then 14 else 0 {
      if f[i] > 0 {
        var d := if f[i] == 128 then 7 else 14;
        assert Pow2(depths[i]) == Pow2(d);
        Pow2Injective(depths[i], d);
        Pow2Injective(d, depths[i]);
      }
    }
    SevenAndThirteen(Cut(depths, 13));
  }

  lemma SevenAndThirteen(c: seq<nat>)
    requires Steps(c, 127, 7, 13, 315) && |c| == 316
    ensures Excess(c, 13) == 64 && !CanRepair(c, 13)
  {
    hide Span, Pow2;
    PowersTo14();
    NothingSum(c);
    SpanRun(c, 0, 127, 7);
    SpanRun(c, 127, 254, 13);
    SpanRun(c, 254, 315, 0);
    SpanRun(c, 315, 316, 13);
    assert c[..316] == c;
    assert Slots(7, 13, 1, 13) == 64 && Slots(13, 13, 1, 13) == 1 && Slots(0, 13, 1, 13) == 0;
    TopIs(64, 6);
  }

  lemma CrowdedHasNoCode()
    ensures !HasCode(BdCounts(CrowdedTokens(127))) && Sum(BdCounts(CrowdedTokens(127))) == 16384
  {
    hide HuffmanDepths, CanRepair, CrowdedTokens, BlockCounts, UsedCount, CodeDepths, Sum, Pow2;
    var f := BdCounts(CrowdedTokens(127));
    CrowdedCounts(127);
    CrowdedFrequencies(f);
    CodeDepthsHuffman(f);
    CrowdedDepths(f, CodeDepths(f));
    PowersTo14();
  }

  /** The length generator fails on these counts. */
  method CrowdedTreeGen(freqs: seq<nat>) returns (r: Option<seq<nat>>)
    requires freqs == BdCounts(CrowdedTokens(127))
    ensures Sum(freqs) == 16384 && r.None?
  {
    hide CanRepair, CrowdedTokens, BlockCounts, UsedCount, Sum, Pow2, CodeDepths;
    CrowdedHasNoCode();
    Pow2Values();
    r := TreeGen(freqs, 13);
  }

  // ----- rANS: 90 bytes 91 times each, and 92 symbols once -----

  lemma CrowdedShares()
    ensures ScaledOne(91, 8282) == 45 && ScaledOne(1, 8282) == 1 && ScaledOne(0, 8282) == 0
  {
  }

  /** Clamping adds 46 to the scale, and the largest frequency is 45. */
  lemma CrowdedNotCorrectable()
    ensures var raw := BlockCounts(CrowdedTokens(90)); Sum(raw) == 8282 && !Correctable(raw)
  {
    hide Sum, ScaledOne, Scaled, CrowdedTokens, BlockCounts;
    var raw := BlockCounts(CrowdedTokens(90));
    CrowdedCounts(90);
    StepsSum(raw, 90, 91, 1, 315);
    var f := Scaled(raw, 8282);
    CrowdedShares();
    ScaledAt(raw, 8282);
    StepsSum(f, 90, 45, 1, 315);
    assert forall i :: 0 <= i < MAX_SYMS ==> f[i] <= 45;
  }
}
