/** The format's constants: the delta tables, the default code lengths, the symbol layouts. */
module Tables {
  import opened BitStrings
  import opened Canonical

  const NUM_BYTE_SYM := 256
  const NUM_DIST_SYM := 60
  const NUM_LEN_SYM := 28
  const NUM_BD_SYM := 316
  const FIRST_LEN := NUM_BD_SYM  // the first length symbol
  const NUM_SYMBOLS := 344

  const VVAL: seq<seq<nat>> := [
    [ 0,13,12,11,10, 9, 8, 7, 6, 5, 4, 3, 2, 1],
    [ 1, 2, 3, 4, 5, 6, 7, 8, 9,10,11,12,13, 0],
    [ 2, 1, 3, 4, 5, 6, 7, 8, 9,10,11,12,13, 0],
    [ 3, 2, 4, 1, 5, 6, 7, 8, 9,10,11,12,13, 0],
    [ 4, 3, 5, 2, 6, 1, 7, 8, 9,10,11,12,13, 0],
    [ 5, 4, 6, 3, 7, 2, 8, 1, 9,10,11,12,13, 0],
    [ 6, 5, 7, 4, 8, 3, 9, 2,10, 1,11,12,13, 0],
    [ 7, 6, 8, 5, 9, 4,10, 3,11, 2,12, 1,13, 0],
    [ 8, 7, 9, 6,10, 5,11, 4,12, 3,13, 2, 0, 1],
    [ 9, 8,10, 7,11, 6,12, 5,13, 4, 0, 3, 2, 1],
    [10, 9,11, 8,12, 7,13, 6, 0, 5, 4, 3, 2, 1],
    [11,10,12, 9,13, 8, 0, 7, 6, 5, 4, 3, 2, 1],
    [12,11,13,10, 0, 9, 8, 7, 6, 5, 4, 3, 2, 1],
    [13,12, 0,11,10, 9, 8, 7, 6, 5, 4, 3, 2, 1]
  ]

  const IVVAL: seq<seq<nat>> := [
    [ 0,13,12,11,10, 9, 8, 7, 6, 5, 4, 3, 2, 1],
    [13, 0, 1, 2, 3, 4, 5, 6, 7, 8, 9,10,11,12],
    [13, 1, 0, 2, 3, 4, 5, 6, 7, 8, 9,10,11,12],
    [13, 3, 1, 0, 2, 4, 5, 6, 7, 8, 9,10,11,12],
    [13, 5, 3, 1, 0, 2, 4, 6, 7, 8, 9,10,11,12],
    [13, 7, 5, 3, 1, 0, 2, 4, 6, 8, 9,10,11,12],
    [13, 9, 7, 5, 3, 1, 0, 2, 4, 6, 8,10,11,12],
    [13,11, 9, 7, 5, 3, 1, 0, 2, 4, 6, 8,10,12],
    [12,13,11, 9, 7, 5, 3, 1, 0, 2, 4, 6, 8,10],
    [10,13,12,11, 9, 7, 5, 3, 1, 0, 2, 4, 6, 8],
    [ 8,13,12,11,10, 9, 7, 5, 3, 1, 0, 2, 4, 6],
    [ 6,13,12,11,10, 9, 8, 7, 5, 3, 1, 0, 2, 4],
    [ 4,13,12,11,10, 9, 8, 7, 6, 5, 3, 1, 0, 2],
    [ 2,13,12,11,10, 9, 8, 7, 6, 5, 4, 3, 1, 0]
  ]

  /** l is recovered from its delta code against the row's previous length. */
  predicate RowOk(v: seq<nat>, w: seq<nat>, l: nat)
  {
    |v| == 14 && |w| == 14 && l <= 13 && w[l] <= 13 && v[w[l]] == l
  }

  lemma RowInverse(prev: nat, l: nat)
    requires prev <= 13 && l <= 13
    ensures |VVAL| == |IVVAL| == 14 && RowOk(VVAL[prev], IVVAL[prev], l)
  {
    if prev < 7 {
      LowRow(prev, l);
    } else {
      HighRow(prev, l);
    }
  }

  lemma LowRow(prev: nat, l: nat)
    requires prev < 7 && l <= 13
    ensures |VVAL| == |IVVAL| == 14 && RowOk(VVAL[prev], IVVAL[prev], l)
  {
    RowShape(prev);
  }

  lemma HighRow(prev: nat, l: nat)
    requires 7 <= prev <= 13 && l <= 13
    ensures |VVAL| == |IVVAL| == 14 && RowOk(VVAL[prev], IVVAL[prev], l)
  {
    RowShape(prev);
  }

  lemma RowShape(prev: nat)
    requires prev <= 13
    ensures |VVAL| == |IVVAL| == 14 && |VVAL[prev]| == |IVVAL[prev]| == 14
  {
  }

  /** The length a delta code stands for. */
  function Decoded(prev: nat, delta: nat): (l: nat)
    requires prev <= 13 && delta <= 13
    ensures l <= 13
  {
    RowShape(prev);
    VVAL[prev][delta]
  }

  /** The delta code of a length. */
  function Delta(prev: nat, l: nat): (delta: nat)
    requires prev <= 13 && l <= 13
    ensures delta <= 13 && Decoded(prev, delta) == l
  {
    RowInverse(prev, l);
    IVVAL[prev][l]
  }

  // ----- the default code -----

  /** (count, length) runs of the default code lengths. */
  const DEFAULT_RUNS: seq<(nat, nat)> := [
    (10,9), (1,7), (1,9), (1,7), (19,9), (1,7), (13,8), (1,7), (11,8), (1,7),
    (33,8), (1,7), (35,8), (128,10), (16,6), (12,7), (6,8), (10,9), (16,10),
    (9,4), (9,5), (10,6)
  ]

  /** The lengths of the first n runs. */
  function Expand(runs: seq<(nat, nat)>, n: nat): seq<nat>
    requires n <= |runs|
  {
    if n == 0 then [] else Expand(runs, n - 1) + Rep(runs[n - 1].1, runs[n - 1].0)
  }

  function DefaultLengths(): seq<nat> { Expand(DEFAULT_RUNS, 22) }

  function RunsSize(runs: seq<(nat, nat)>, n: nat): nat
    requires n <= |runs|
  {
    if n == 0 then 0 else RunsSize(runs, n - 1) + runs[n - 1].0
  }

  function RunsKraft(runs: seq<(nat, nat)>, n: nat): nat
    requires n <= |runs|
  {
    if n == 0 then 0 else RunsKraft(runs, n - 1) + runs[n - 1].0 * Weight(runs[n - 1].1)
  }

  lemma {:induction false} KraftConcat(a: seq<nat>, b: seq<nat>)
    ensures Kraft(a + b) == Kraft(a) + Kraft(b)
  {
    if b == [] {
      assert a + b == a;
    } else {
      assert (a + b)[..|a + b| - 1] == a + b[..|b| - 1];
      KraftConcat(a, b[..|b| - 1]);
    }
  }

  lemma {:induction false} KraftRep(l: nat, n: nat)
    ensures Kraft(Rep(l, n)) == n * Weight(l)
  {
    if n > 0 {
      assert Rep(l, n)[..n - 1] == Rep(l, n - 1);
      KraftRep(l, n - 1);
      MulAddLeft(n - 1, 1, Weight(l));
    }
  }

  lemma {:induction false} ExpandFacts(runs: seq<(nat, nat)>, n: nat)
    requires n <= |runs| && forall r :: r in runs ==> 1 <= r.1 <= MAX_CODE_BITS
    ensures |Expand(runs, n)| == RunsSize(runs, n) && Kraft(Expand(runs, n)) == RunsKraft(runs, n)
    ensures forall i :: 0 <= i < |Expand(runs, n)| ==> 1 <= Expand(runs, n)[i] <= MAX_CODE_BITS
  {
    if n > 0 {
      var r := runs[n - 1];
      assert r in runs;
      ExpandFacts(runs, n - 1);
      KraftRep(r.1, r.0);
      KraftConcat(Expand(runs, n - 1), Rep(r.1, r.0));
    }
  }

  lemma {:induction false} ExpandPrefix(runs: seq<(nat, nat)>, m: nat, n: nat)
    requires m <= n <= |runs|
    ensures Expand(runs, m) <= Expand(runs, n)
    decreases n
  {
    if m < n {
      ExpandPrefix(runs, m, n - 1);
    }
  }

  /** 344 lengths, all of them codes; both halves fit their tables, the first with 64 slots to spare. */
  lemma DefaultFacts()
    ensures |DefaultLengths()| == NUM_SYMBOLS
    ensures forall i :: 0 <= i < NUM_SYMBOLS ==> 1 <= DefaultLengths()[i] <= MAX_CODE_BITS
    ensures Kraft(DefaultLengths()[..NUM_BD_SYM]) == LOOKUP_SIZE - 64
    ensures Kraft(DefaultLengths()[NUM_BD_SYM..]) == LOOKUP_SIZE
  {
    hide Expand, Kraft, RunsSize, RunsKraft;
    var d := DefaultLengths();
    DefaultRuns();
    ExpandFacts(DEFAULT_RUNS, 19);
    ExpandFacts(DEFAULT_RUNS, 22);
    ExpandPrefix(DEFAULT_RUNS, 19, 22);
    RunTotals();
    hide DefaultLengths;
    assert d[..NUM_BD_SYM] == Expand(DEFAULT_RUNS, 19);
    assert d == d[..NUM_BD_SYM] + d[NUM_BD_SYM..];
    KraftConcat(d[..NUM_BD_SYM], d[NUM_BD_SYM..]);
  }

  lemma DefaultRuns()
    ensures |DEFAULT_RUNS| == 22 && forall r :: r in DEFAULT_RUNS ==> 1 <= r.1 <= MAX_CODE_BITS
  {
  }

  /** The weights of the lengths that occur. */
  lemma WeightValues()
    ensures Weight(4) == 512 && Weight(5) == 256 && Weight(6) == 128 && Weight(7) == 64
    ensures Weight(8) == 32 && Weight(9) == 16 && Weight(10) == 8
  {
    assert Pow2(3) == 8;
    assert Pow2(6) == 64;
    assert Pow2(8) == 256;
  }

  lemma RunStep(n: nat, size: nat, kraft: nat)
    requires n < 22 && RunsSize(DEFAULT_RUNS, n) == size && RunsKraft(DEFAULT_RUNS, n) == kraft
    ensures RunsSize(DEFAULT_RUNS, n + 1) == size + DEFAULT_RUNS[n].0
    ensures RunsKraft(DEFAULT_RUNS, n + 1) == kraft + DEFAULT_RUNS[n].0 * Weight(DEFAULT_RUNS[n].1)
  {
  }

  lemma RunTotals()
    ensures RunsSize(DEFAULT_RUNS, 19) == 316 && RunsSize(DEFAULT_RUNS, 22) == 344
    ensures RunsKraft(DEFAULT_RUNS, 19) == 8128 && RunsKraft(DEFAULT_RUNS, 22) == 16320
  {
    hide RunsSize, RunsKraft;
    RunTotals7();
    RunTotals14();
    RunTotals19();
    RunTotals22();
  }

  lemma RunTotals4()
    ensures RunsSize(DEFAULT_RUNS, 4) == 13 && RunsKraft(DEFAULT_RUNS, 4) == 304
  {
    hide Pow2, Weight, RunsSize, RunsKraft;
    WeightValues();
    RunStart();
    RunStep(0, 0, 0);
    RunStep(1, 10, 160);
    RunStep(2, 11, 224);
    RunStep(3, 12, 240);
  }

  lemma RunTotals7()
    ensures RunsSize(DEFAULT_RUNS, 7) == 46 && RunsKraft(DEFAULT_RUNS, 7) == 1088
  {
    hide Pow2, Weight, RunsSize, RunsKraft;
    WeightValues();
    RunTotals4();
    RunStep(4, 13, 304);
    RunStep(5, 32, 608);
    RunStep(6, 33, 672);
  }

  lemma RunTotals14()
    ensures RunsSize(DEFAULT_RUNS, 14) == 256 && RunsKraft(DEFAULT_RUNS, 14) == 4832
  {
    hide Pow2, Weight, RunsSize, RunsKraft;
    WeightValues();
    RunTotals7();
    RunStep(7, 46, 1088);
    RunStep(8, 47, 1152);
    RunStep(9, 58, 1504);
    RunStep(10, 59, 1568);
    RunStep(11, 92, 2624);
    RunStep(12, 93, 2688);
    RunStep(13, 128, 3808);
  }

  lemma RunTotals19()
    ensures RunsSize(DEFAULT_RUNS, 19) == 316 && RunsKraft(DEFAULT_RUNS, 19) == 8128
  {
    hide Pow2, Weight, RunsSize, RunsKraft;
    WeightValues();
    RunTotals14();
    RunStep(14, 256, 4832);
    RunStep(15, 272, 6880);
    RunStep(16, 284, 7648);
    RunStep(17, 290, 7840);
    RunStep(18, 300, 8000);
  }

  lemma RunTotals22()
    ensures RunsSize(DEFAULT_RUNS, 22) == 344 && RunsKraft(DEFAULT_RUNS, 22) == 16320
  {
    hide Pow2, Weight, RunsSize, RunsKraft;
    WeightValues();
    RunTotals19();
    RunStep(19, 316, 8128);
    RunStep(20, 325, 12736);
    RunStep(21, 334, 15040);
  }

  lemma RunStart()
    ensures RunsSize(DEFAULT_RUNS, 0) == 0 && RunsKraft(DEFAULT_RUNS, 0) == 0
  {
  }

  /** The length of each symbol in the default code. */
  function DefaultLength(i: nat): nat
  {
    if i in {10, 12, 32, 46, 58, 92} then 7           // line feed, form feed, space, full stop, colon, backslash
    else if i < 32 then 9
    else if i < 128 then 8
    else if i < 256 then 10
    else if i < 272 then 6                            // distances
    else if i < 284 then 7
    else if i < 290 then 8
    else if i < 300 then 9
    else if i < 316 then 10
    else if i < 325 then 4                            // lengths
    else if i < 334 then 5
    else 6
  }

  /** Run r starts at symbol a. */
  ghost predicate RunRight(r: nat, a: nat)
    requires r < 22
  {
    && RunsSize(DEFAULT_RUNS, r) == a && a + DEFAULT_RUNS[r].0 <= NUM_SYMBOLS == |DefaultLengths()|
    && forall i :: a <= i < a + DEFAULT_RUNS[r].0 ==> DefaultLengths()[i] == DEFAULT_RUNS[r].1
  }

  lemma RunAt(r: nat, a: nat)
    requires r < 22 && RunsSize(DEFAULT_RUNS, r) == a
    ensures RunRight(r, a) && RunsSize(DEFAULT_RUNS, r + 1) == a + DEFAULT_RUNS[r].0
  {
    hide Expand, RunsKraft, Kraft, DefaultLengths;
    DefaultRuns();
    DefaultFacts();
    DefaultPart(r);
    ExpandFacts(DEFAULT_RUNS, r);
    DefaultIs();
    ExpandPrefix(DEFAULT_RUNS, r + 1, 22);
    var before, run := Expand(DEFAULT_RUNS, r), Rep(DEFAULT_RUNS[r].1, DEFAULT_RUNS[r].0);
    assert Expand(DEFAULT_RUNS, r + 1) == before + run;
    forall i | a <= i < a + DEFAULT_RUNS[r].0 ensures DefaultLengths()[i] == DEFAULT_RUNS[r].1 {
      assert DefaultLengths()[i] == Expand(DEFAULT_RUNS, r + 1)[i] == run[i - a];
    }
  }

  lemma DefaultIs()
    ensures DefaultLengths() == Expand(DEFAULT_RUNS, 22)
  {
  }

  lemma LowDefaults(i: nat)
    requires 0 <= i < 46
    ensures i < |DefaultLengths()| && DefaultLengths()[i] == DefaultLength(i)
  {
    hide DefaultLengths, Expand, RunsSize, RunsKraft, Kraft;
    RunTotals();
    RunStart();
    RunAt(0, 0);
    RunAt(1, 10);
    RunAt(2, 11);
    RunAt(3, 12);
    RunAt(4, 13);
    RunAt(5, 32);
    RunAt(6, 33);
  }

  lemma ByteDefaults(i: nat)
    requires 46 <= i < 256
    ensures i < |DefaultLengths()| && DefaultLengths()[i] == DefaultLength(i)
  {
    hide DefaultLengths, Expand, RunsSize, RunsKraft, Kraft;
    RunTotals();
    RunTotals7();
    RunAt(7, 46);
    RunAt(8, 47);
    RunAt(9, 58);
    RunAt(10, 59);
    RunAt(11, 92);
    RunAt(12, 93);
    RunAt(13, 128);
  }

  lemma DistDefaults(i: nat)
    requires 256 <= i < 316
    ensures i < |DefaultLengths()| && DefaultLengths()[i] == DefaultLength(i)
  {
    hide DefaultLengths, Expand, RunsSize, RunsKraft, Kraft;
    RunTotals();
    RunTotals14();
    RunAt(14, 256);
    RunAt(15, 272);
    RunAt(16, 284);
    RunAt(17, 290);
    RunAt(18, 300);
  }

  lemma LenDefaults(i: nat)
    requires 316 <= i < 344
    ensures i < |DefaultLengths()| && DefaultLengths()[i] == DefaultLength(i)
  {
    hide DefaultLengths, Expand, RunsSize, RunsKraft, Kraft;
    RunTotals();
    RunAt(19, 316);
    RunAt(20, 325);
    RunAt(21, 334);
  }

  /** That is what the runs spell. */
  lemma DefaultLengthAt(i: nat)
    requires i < NUM_SYMBOLS
    ensures i < |DefaultLengths()| && DefaultLengths()[i] == DefaultLength(i)
  {
    hide DefaultLengths, DefaultLength;
    if i < 46 {
      LowDefaults(i);
    } else if i < 256 {
      ByteDefaults(i);
    } else if i < 316 {
      DistDefaults(i);
    } else {
      LenDefaults(i);
    }
  }

  method WriteRun(d: array<nat>, p: nat, n0: nat, v: nat) returns (q: nat)
    requires p + n0 <= d.Length
    modifies d
    ensures q == p + n0 && d[..q] == old(d[..p]) + Rep(v, n0)
  {
    q := p;
    var n := n0;
    while n > 0
      invariant 0 <= n <= n0 && q == p + (n0 - n)
      invariant d[..q] == old(d[..p]) + Rep(v, n0 - n)
    {
      d[q] := v;
      assert d[..q + 1] == d[..q] + [v];
      q, n := q + 1, n - 1;
    }
  }

  lemma DefaultPart(r: nat)
    requires r < 22
    ensures |Expand(DEFAULT_RUNS, r)| + DEFAULT_RUNS[r].0 <= NUM_SYMBOLS
    ensures Expand(DEFAULT_RUNS, r + 1) == Expand(DEFAULT_RUNS, r) + Rep(DEFAULT_RUNS[r].1, DEFAULT_RUNS[r].0)
  {
    DefaultFacts();
    ExpandPrefix(DEFAULT_RUNS, r + 1, 22);
  }

  /** Writes the default lengths run by run. */
  method FillDefault(d: array<nat>)
    requires d.Length == NUM_SYMBOLS
    modifies d
    ensures d[..] == DefaultLengths()
  {
    DefaultFacts();
    var p := 0;
    for r := 0 to 22
      invariant p == |Expand(DEFAULT_RUNS, r)| <= NUM_SYMBOLS && d[..p] == Expand(DEFAULT_RUNS, r)
    {
      DefaultPart(r);
      p := WriteRun(d, p, DEFAULT_RUNS[r].0, DEFAULT_RUNS[r].1);
    }
  }

  // ----- which symbols a tree description lists -----

  /** t is the two-bit layout: bit 0 for the low control codes, bit 1 for the high bytes. */
  predicate Present(t: nat, i: nat)
  {
    if i >= NUM_BYTE_SYM then i < NUM_SYMBOLS
    else if i >= 128 then t / 2 == 1
    else t % 2 == 1 || i in {9, 10, 12, 13} || i >= 32
  }

  function PresentCount(t: nat, n: nat): (c: nat)
    ensures c <= n
  {
    if n == 0 then 0 else PresentCount(t, n - 1) + if Present(t, n - 1) then 1 else 0
  }

  function LayoutSize(t: nat): nat
  {
    NUM_SYMBOLS - 28 - 128 + (if t % 2 == 1 then 28 else 0) + (if t / 2 == 1 then 128 else 0)
  }

  lemma {:induction false} PresentMonotone(t: nat, m: nat, n: nat)
    requires m <= n
    ensures PresentCount(t, m) <= PresentCount(t, n)
    decreases n
  {
    if m < n {
      PresentMonotone(t, m, n - 1);
    }
  }

  lemma {:induction false} PresentRun(t: nat, a: nat, b: nat, flag: bool)
    requires a <= b && forall i: nat :: a <= i < b ==> Present(t, i) == flag
    ensures PresentCount(t, b) == PresentCount(t, a) + if flag then b - a else 0
    decreases b
  {
    if a < b {
      PresentRun(t, a, b - 1, flag);
    }
  }

  lemma PresentTotal(t: nat)
    requires t <= 3
    ensures PresentCount(t, NUM_SYMBOLS) == LayoutSize(t)
  {
    PresentRun(t, 0, 9, t % 2 == 1);
    PresentRun(t, 9, 11, true);
    PresentRun(t, 11, 12, t % 2 == 1);
    PresentRun(t, 12, 14, true);
    PresentRun(t, 14, 32, t % 2 == 1);
    PresentRun(t, 32, 128, true);
    PresentRun(t, 128, 256, t / 2 == 1);
    PresentRun(t, 256, 344, true);
  }

  /** The decompressor's layouts: runs of a count below 0x200, flagged by 0x200 when listed. */
  const LAYOUTS: seq<seq<nat>> := [
    [0x009, 0x202, 0x1, 0x202, 0x12, 0x260, 0x80, 0x258],
    [0x280, 0x80, 0x258],
    [0x009, 0x202, 0x1, 0x202, 0x12, 0x338],
    [0x358]
  ]

  /** The runs from index r on describe the symbols from i on. */
  ghost predicate Describes(runs: seq<nat>, t: nat, r: nat, i: nat)
    requires r <= |runs|
    decreases |runs| - r
  {
    if r == |runs| then i == NUM_SYMBOLS
    else
      var n := runs[r] % 0x200;
      && 1 <= n && i + n <= NUM_SYMBOLS
      && (forall k: nat :: i <= k < i + n ==> (Present(t, k) <==> runs[r] / 0x200 == 1))
      && Describes(runs, t, r + 1, i + n)
  }

  lemma DescribesRun(runs: seq<nat>, t: nat, r: nat, i: nat, n: nat, flag: bool)
    requires r < |runs| && 1 <= n < 0x200 && runs[r] == n + (if flag then 0x200 else 0) && i + n <= NUM_SYMBOLS
    requires forall k: nat :: i <= k < i + n ==> (Present(t, k) <==> flag)
    requires Describes(runs, t, r + 1, i + n)
    ensures Describes(runs, t, r, i)
  {
  }

  lemma LayoutsDescribe(t: nat)
    requires t <= 3
    ensures |LAYOUTS| == 4 && Describes(LAYOUTS[t], t, 0, 0)
  {
    if t == 0 {
      Layout0();
    } else if t == 1 {
      Layout1();
    } else if t == 2 {
      Layout2();
    } else {
      Layout3();
    }
  }

  lemma Layout0()
    ensures Describes(LAYOUTS[0], 0, 0, 0)
  {
    LayoutFrom0(LAYOUTS[0]);
  }

  lemma LayoutFrom0(runs: seq<nat>)
    requires runs == [0x009, 0x202, 0x1, 0x202, 0x12, 0x260, 0x80, 0x258]
    ensures Describes(runs, 0, 0, 0)
  {
    LowBytes(0);
    OtherBytes();
    DescribesEnd(runs, 0);
    hide Describes, Present;
    DescribesRun(runs, 0, 7, 256, 88, true);
    DescribesRun(runs, 0, 6, 128, 128, false);
    DescribesRun(runs, 0, 5, 32, 96, true);
    DescribesLow(runs, 0);
  }

  /** The five runs below 32 that layouts 0 and 2 share. */
  lemma DescribesLow(runs: seq<nat>, t: nat)
    requires t == 0 || t == 2
    requires |runs| > 5 && runs[..5] == [0x009, 0x202, 0x1, 0x202, 0x12] && Describes(runs, t, 5, 32)
    ensures Describes(runs, t, 0, 0)
  {
    LowBytes(t);
    assert runs[0] == runs[..5][0] && runs[1] == runs[..5][1] && runs[2] == runs[..5][2] && runs[3] == runs[..5][3] && runs[4] == runs[..5][4];
    hide Describes, Present;
    DescribesRun(runs, t, 4, 14, 18, false);
    DescribesRun(runs, t, 3, 12, 2, true);
    DescribesRun(runs, t, 2, 11, 1, false);
    DescribesRun(runs, t, 1, 9, 2, true);
    DescribesRun(runs, t, 0, 0, 9, false);
  }

  lemma LowBytes(t: nat)
    requires t == 0 || t == 2
    ensures (forall k: nat :: 0 <= k < 9 ==> !Present(t, k)) && (forall k: nat :: 9 <= k < 11 ==> Present(t, k))
    ensures (forall k: nat :: 11 <= k < 12 ==> !Present(t, k)) && (forall k: nat :: 12 <= k < 14 ==> Present(t, k))
    ensures forall k: nat :: 14 <= k < 32 ==> !Present(t, k)
  {
  }

  lemma OtherBytes()
    ensures (forall k: nat :: 32 <= k < 128 ==> Present(0, k)) && (forall k: nat :: 128 <= k < 256 ==> !Present(0, k))
    ensures (forall k: nat :: 256 <= k < 344 ==> Present(0, k)) && (forall k: nat :: 32 <= k < 344 ==> Present(2, k))
  {
  }

  lemma DescribesEnd(runs: seq<nat>, t: nat)
    ensures Describes(runs, t, |runs|, NUM_SYMBOLS)
  {
  }

  lemma Layout1()
    ensures Describes(LAYOUTS[1], 1, 0, 0)
  {
    var runs := LAYOUTS[1];
    assert |runs| == 3;
    DescribesRun(runs, 1, 2, 256, 88, true);
    DescribesRun(runs, 1, 1, 128, 128, false);
    DescribesRun(runs, 1, 0, 0, 128, true);
  }

  lemma Layout2()
    ensures Describes(LAYOUTS[2], 2, 0, 0)
  {
    LayoutFrom2(LAYOUTS[2]);
  }

  lemma LayoutFrom2(runs: seq<nat>)
    requires runs == [0x009, 0x202, 0x1, 0x202, 0x12, 0x338]
    ensures Describes(runs, 2, 0, 0)
  {
    OtherBytes();
    DescribesEnd(runs, 2);
    hide Describes, Present;
    DescribesRun(runs, 2, 5, 32, 312, true);
    DescribesLow(runs, 2);
  }

  lemma Layout3()
    ensures Describes(LAYOUTS[3], 3, 0, 0)
  {
    var runs := LAYOUTS[3];
    assert |runs| == 1;
    DescribesRun(runs, 3, 0, 0, 344, true);
  }
}
