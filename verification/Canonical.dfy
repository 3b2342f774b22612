/** Canonical prefix codes (the compressor's side) and 13-bit lookup tables (the decompressor's side). */
module Canonical {
  import opened BitStrings
  import opened ErrorCodes

  const MAX_CODE_BITS := 13
  const LOOKUP_SIZE := 8192

  /** A packed table word: a value, the number of extra bits to read, and the distance flag. */
  datatype Code = Code(value: nat, extra: nat, isDist: bool)

  datatype Entry = Entry(code: Code, len: nat)

  const FILLER := Entry(Code(0, 0, false), 1)

  predicate Used(lengths: seq<nat>, i: nat)
  {
    i < |lengths| && 1 <= lengths[i] <= MAX_CODE_BITS
  }

  /** The table slots a code of l bits covers. */
  function Weight(l: nat): nat
  {
    if 1 <= l <= MAX_CODE_BITS then Pow2(MAX_CODE_BITS - l) else 0
  }

  /** The Kraft sum of a code, in table slots. */
  function Kraft(lengths: seq<nat>): nat
  {
    if lengths == [] then 0 else Kraft(lengths[..|lengths| - 1]) + Weight(lengths[|lengths| - 1])
  }

  /** The slots taken before symbol i in the pass over the codes of l bits. */
  function Start(lengths: seq<nat>, l: nat, i: nat): nat
    requires i <= |lengths|
    decreases l, i
  {
    if i > 0 then Start(lengths, l, i - 1) + if lengths[i - 1] == l then Weight(l) else 0
    else if l > 1 then Start(lengths, l - 1, |lengths|)
    else 0
  }

  /** The canonical code that symbol i gets if its length is l. */
  function NextCode(lengths: seq<nat>, l: nat, i: nat): nat
    requires i <= |lengths|
    decreases l, i
  {
    if i > 0 then NextCode(lengths, l, i - 1) + if lengths[i - 1] == l then 1 else 0
    else if l > 1 then 2 * NextCode(lengths, l - 1, |lengths|)
    else 0
  }

  /** The bits written for symbol i. */
  function CodeBits(lengths: seq<nat>, i: nat): (b: seq<bool>)
    requires Used(lengths, i)
    ensures |b| == lengths[i]
  {
    BitsOf(NextCode(lengths, lengths[i], i), lengths[i])
  }

  function Rep<T>(x: T, n: nat): (s: seq<T>)
    ensures |s| == n && forall k :: 0 <= k < n ==> s[k] == x
  {
    seq(n, _ => x)
  }

  /** The entries written before symbol i in the pass over the codes of l bits. */
  function Filled(lengths: seq<nat>, codes: seq<Code>, l: nat, i: nat): (s: seq<Entry>)
    requires i <= |lengths| == |codes|
    ensures |s| == Start(lengths, l, i)
    decreases l, i
  {
    if i > 0 then
      Filled(lengths, codes, l, i - 1) + if lengths[i - 1] == l then Rep(Entry(codes[i - 1], l), Weight(l)) else []
    else if l > 1 then Filled(lengths, codes, l - 1, |lengths|)
    else []
  }

  function Total(lengths: seq<nat>): nat { Start(lengths, MAX_CODE_BITS + 1, 0) }

  /** The whole lookup table; slots no code covers hold the one-bit filler. */
  function Table(lengths: seq<nat>, codes: seq<Code>): (t: seq<Entry>)
    requires |lengths| == |codes| && Total(lengths) <= LOOKUP_SIZE
    ensures |t| == LOOKUP_SIZE
  {
    Filled(lengths, codes, MAX_CODE_BITS + 1, 0) + Rep(FILLER, LOOKUP_SIZE - Total(lengths))
  }

  // ----- the order of the passes -----

  ghost predicate Before(l: nat, i: nat, l': nat, i': nat)
  {
    l < l' || (l == l' && i <= i')
  }

  lemma {:induction false} FilledPrefix(lengths: seq<nat>, codes: seq<Code>, l: nat, i: nat, l': nat, i': nat)
    requires i <= |lengths| == |codes| && i' <= |lengths| && 1 <= l && Before(l, i, l', i')
    ensures Filled(lengths, codes, l, i) <= Filled(lengths, codes, l', i')
    decreases l', i'
  {
    if (l, i) == (l', i') {
    } else if i' > 0 {
      if l < l' || i < i' {
        FilledPrefix(lengths, codes, l, i, l', i' - 1);
      }
    } else {
      FilledPrefix(lengths, codes, l, i, l' - 1, |lengths|);
    }
  }

  lemma {:induction false} CodeStart(lengths: seq<nat>, l: nat, i: nat)
    requires i <= |lengths| && 1 <= l <= MAX_CODE_BITS
    ensures NextCode(lengths, l, i) * Pow2(MAX_CODE_BITS - l) == Start(lengths, l, i)
    decreases l, i
  {
    var w := Pow2(MAX_CODE_BITS - l);
    if i > 0 {
      CodeStart(lengths, l, i - 1);
      MulAddLeft(NextCode(lengths, l, i - 1), 1, w);
    } else if l > 1 {
      CodeStart(lengths, l - 1, |lengths|);
      MulAssoc(NextCode(lengths, l - 1, |lengths|), 2, w);
    }
  }

  lemma StartMonotone(lengths: seq<nat>, l: nat, i: nat, l': nat, i': nat)
    requires i <= |lengths| && i' <= |lengths| && 1 <= l && Before(l, i, l', i')
    ensures Start(lengths, l, i) <= Start(lengths, l', i')
  {
    var codes := Rep(FILLER.code, |lengths|);
    FilledPrefix(lengths, codes, l, i, l', i');
  }

  lemma StartNext(lengths: seq<nat>, i: nat)
    requires Used(lengths, i)
    ensures Start(lengths, lengths[i], i + 1) == Start(lengths, lengths[i], i) + Weight(lengths[i])
    ensures Weight(lengths[i]) == Pow2(MAX_CODE_BITS - lengths[i])
  {
    hide Pow2;
  }

  /** A used symbol's slots lie inside the table, so its code fits its length. */
  lemma CodeFits(lengths: seq<nat>, i: nat)
    requires Used(lengths, i) && Total(lengths) <= LOOKUP_SIZE
    ensures NextCode(lengths, lengths[i], i) < Pow2(lengths[i])
    ensures Start(lengths, lengths[i], i) + Weight(lengths[i]) <= Total(lengths)
  {
    hide Pow2, NextCode, Start;
    StartNext(lengths, i);
    var l, c := lengths[i], NextCode(lengths, lengths[i], i);
    StartMonotone(lengths, l, i + 1, MAX_CODE_BITS + 1, 0);
    CodeStart(lengths, l, i);
    var w := Pow2(MAX_CODE_BITS - l);
    MulAddLeft(c, 1, w);
    Pow2Add(l, MAX_CODE_BITS - l);
    Pow2Values();
    FactorLess(c + 1, Pow2(l), w);
  }

  lemma FactorLess(a: int, b: int, w: int)
    requires w > 0 && a * w <= b * w
    ensures a <= b
  {
    MultipleBound(a - b, w);
    MulAddLeft(a, -b, w);
    assert (-b) * w == -(b * w);
  }

  /** Every window that starts with a symbol's code is looked up as that symbol. */
  lemma WindowLookup(lengths: seq<nat>, codes: seq<Code>, i: nat, w: nat)
    requires |lengths| == |codes| && Used(lengths, i) && Total(lengths) <= LOOKUP_SIZE
    requires w < LOOKUP_SIZE && w / Pow2(MAX_CODE_BITS - lengths[i]) == NextCode(lengths, lengths[i], i)
    ensures Table(lengths, codes)[w] == Entry(codes[i], lengths[i])
  {
    var l := lengths[i];
    CodeFits(lengths, i);
    CodeStart(lengths, l, i);
    DivRange(w, Pow2(MAX_CODE_BITS - l));
    FilledAt(lengths, codes, i, w);
  }

  lemma DivRange(w: int, m: int)
    requires m > 0
    ensures (w / m) * m <= w < (w / m) * m + m
  {
  }

  lemma FilledAt(lengths: seq<nat>, codes: seq<Code>, i: nat, w: nat)
    requires |lengths| == |codes| && Used(lengths, i) && Total(lengths) <= LOOKUP_SIZE
    requires Start(lengths, lengths[i], i) <= w < Start(lengths, lengths[i], i) + Weight(lengths[i]) && w < LOOKUP_SIZE
    ensures Table(lengths, codes)[w] == Entry(codes[i], lengths[i])
  {
    hide Pow2;
    var l := lengths[i];
    var f := Filled(lengths, codes, l, i + 1);
    FilledPrefix(lengths, codes, l, i + 1, MAX_CODE_BITS + 1, 0);
    assert f == Filled(lengths, codes, l, i) + Rep(Entry(codes[i], l), Weight(l));
    assert f[w] == Entry(codes[i], l);
  }

  /** A Huffman lookup: 13 bits are examined, the code's length is consumed. */
  function Lookup(table: seq<Entry>, t: seq<bool>, p: nat): (r: int)
    requires |table| == LOOKUP_SIZE
    ensures r >= 0 ==> r < LOOKUP_SIZE && p + MAX_CODE_BITS <= |t|
    ensures r < 0 ==> r == TRUNCATED
  {
    Pow2Values();
    ReadAt(t, p, MAX_CODE_BITS)
  }

  /** The table reads back what the canonical code wrote, given 13 readable bits. */
  lemma LookupCode(lengths: seq<nat>, codes: seq<Code>, i: nat, t: seq<bool>, p: nat)
    requires |lengths| == |codes| && Used(lengths, i) && Total(lengths) <= LOOKUP_SIZE
    requires HasBits(t, p, CodeBits(lengths, i)) && p + MAX_CODE_BITS <= |t|
    ensures var table := Table(lengths, codes);
            Lookup(table, t, p) >= 0 && table[Lookup(table, t, p)] == Entry(codes[i], lengths[i])
  {
    var l := lengths[i];
    var win := t[p..p + MAX_CODE_BITS];
    assert win[..l] == CodeBits(lengths, i);
    CodeFits(lengths, i);
    ValBitsOf(NextCode(lengths, l, i), l);
    ValPrefix(win, l);
    ValBound(win);
    Pow2Values();
    WindowLookup(lengths, codes, i, Val(win));
  }

  /** No code is a prefix of another. */
  lemma PrefixFree(lengths: seq<nat>, i: nat, j: nat)
    requires Used(lengths, i) && Used(lengths, j) && Total(lengths) <= LOOKUP_SIZE
    requires CodeBits(lengths, i) <= CodeBits(lengths, j)
    ensures i == j
  {
    var codes := seq(|lengths|, k requires 0 <= k => Code(k, 0, false));
    var t := CodeBits(lengths, j) + Rep(false, MAX_CODE_BITS);
    assert HasBits(t, 0, CodeBits(lengths, j));
    assert HasBits(t, 0, CodeBits(lengths, i));
    LookupCode(lengths, codes, i, t, 0);
    LookupCode(lengths, codes, j, t, 0);
  }

  /** Every lookup consumes between one and thirteen bits. */
  ghost predicate GoodTable(table: seq<Entry>)
  {
    |table| == LOOKUP_SIZE && forall w :: 0 <= w < LOOKUP_SIZE ==> 1 <= table[w].len <= MAX_CODE_BITS
  }

  lemma {:induction false} FilledEntries(lengths: seq<nat>, codes: seq<Code>, l: nat, i: nat)
    requires i <= |lengths| == |codes|
    ensures forall k :: 0 <= k < |Filled(lengths, codes, l, i)| ==>
              1 <= Filled(lengths, codes, l, i)[k].len <= MAX_CODE_BITS && Filled(lengths, codes, l, i)[k].code in codes
    decreases l, i
  {
    if i > 0 {
      FilledEntries(lengths, codes, l, i - 1);
    } else if l > 1 {
      FilledEntries(lengths, codes, l - 1, |lengths|);
    }
  }

  lemma TableEntries(lengths: seq<nat>, codes: seq<Code>)
    requires |lengths| == |codes| && Total(lengths) <= LOOKUP_SIZE
    ensures GoodTable(Table(lengths, codes))
    ensures forall w :: 0 <= w < LOOKUP_SIZE ==>
              Table(lengths, codes)[w].code in codes || Table(lengths, codes)[w] == FILLER
  {
    FilledEntries(lengths, codes, MAX_CODE_BITS + 1, 0);
  }

  // ----- the Kraft sum -----

  lemma {:induction false} StartSnoc(lengths: seq<nat>, x: nat, l: nat, i: nat)
    requires i <= |lengths| && l >= 1
    ensures Start(lengths + [x], l, i) == Start(lengths, l, i) + if 1 <= x < l then Weight(x) else 0
    decreases l, i
  {
    var longer := lengths + [x];
    if i > 0 {
      StartSnoc(lengths, x, l, i - 1);
    } else if l > 1 {
      StartSnoc(lengths, x, l - 1, |lengths|);
      assert Start(longer, l - 1, |longer|) == Start(longer, l - 1, |lengths|) + if x == l - 1 then Weight(l - 1) else 0;
    }
  }

  /** The table is filled exactly up to the Kraft sum. */
  lemma {:induction false} TotalIsKraft(lengths: seq<nat>)
    ensures Total(lengths) == Kraft(lengths)
  {
    if lengths == [] {
      EmptyStart(MAX_CODE_BITS + 1);
    } else {
      var front, x := lengths[..|lengths| - 1], lengths[|lengths| - 1];
      assert lengths == front + [x];
      TotalIsKraft(front);
      StartSnoc(front, x, MAX_CODE_BITS + 1, 0);
    }
  }

  lemma {:induction false} EmptyStart(l: nat)
    ensures Start([], l, 0) == 0
  {
    if l > 1 {
      EmptyStart(l - 1);
    }
  }

  // ----- the two methods -----

  /** Canonical codes from lengths, counted in a 16-bit word. */
  method CodeGen(lengths: seq<nat>, codes: array<nat>)
    requires codes.Length == |lengths|
    modifies codes
    ensures forall i: nat :: Used(lengths, i) ==> codes[i] == NextCode(lengths, lengths[i], i) % 65536
  {
    hide NextCode;
    FirstCode(lengths);
    var code := 0;
    for len := 1 to MAX_CODE_BITS + 1
      invariant code == NextCode(lengths, len, 0) % 65536
      invariant forall i: nat :: Used(lengths, i) && lengths[i] < len ==> codes[i] == NextCode(lengths, lengths[i], i) % 65536
    {
      for i := 0 to |lengths|
        invariant code == NextCode(lengths, len, i) % 65536
        invariant forall k: nat :: Used(lengths, k) && (lengths[k] < len || (lengths[k] == len && k < i))
                    ==> codes[k] == NextCode(lengths, lengths[k], k) % 65536
      {
        NextCodeStep(lengths, len, i);
        Wrap16(NextCode(lengths, len, i));
        if lengths[i] == len {
          codes[i] := code;
          code := (code + 1) % 65536;
        }
      }
      NextCodeLevel(lengths, len);
      Wrap16(NextCode(lengths, len, |lengths|));
      code := (code * 2) % 65536;
    }
  }

  lemma FirstCode(lengths: seq<nat>)
    ensures NextCode(lengths, 1, 0) == 0
  {
  }

  lemma NextCodeStep(lengths: seq<nat>, l: nat, i: nat)
    requires i < |lengths|
    ensures NextCode(lengths, l, i + 1) == NextCode(lengths, l, i) + if lengths[i] == l then 1 else 0
  {
  }

  lemma NextCodeLevel(lengths: seq<nat>, l: nat)
    requires l >= 1
    ensures NextCode(lengths, l + 1, 0) == 2 * NextCode(lengths, l, |lengths|)
  {
  }

  /** Counting in a 16-bit word. */
  lemma Wrap16(x: nat)
    ensures (x % 65536 + 1) % 65536 == (x + 1) % 65536 && (x % 65536 * 2) % 65536 == (2 * x) % 65536
  {
    var q, r := x / 65536, x % 65536;
    SameMod(q, r + 1);
    SameMod(2 * q, 2 * r);
  }

  lemma SameMod(q: nat, r: nat)
    requires r < 0x2_0000
    ensures r % 65536 == (q * 65536 + r) % 65536
  {
    if r < 65536 {
      DivModUnique(q, 65536, r);
    } else {
      DivModUnique(q + 1, 65536, r - 65536);
    }
  }

  /** Fills the lookup table, or reports a code that does not fit in it. */
  method MkTree(table: array<Entry>, lengths: seq<nat>, codes: seq<Code>) returns (ret: int)
    requires table.Length == LOOKUP_SIZE && |lengths| == |codes|
    modifies table
    ensures ret == if Total(lengths) <= LOOKUP_SIZE then 0 else DAMAGED
    ensures ret == 0 ==> table[..] == Table(lengths, codes)
  {
    var p := 0;
    for l := 1 to MAX_CODE_BITS + 1
      invariant p == Start(lengths, l, 0) <= LOOKUP_SIZE
      invariant table[..p] == Filled(lengths, codes, l, 0)
    {
      for i := 0 to |lengths|
        invariant p == Start(lengths, l, i) <= LOOKUP_SIZE
        invariant table[..p] == Filled(lengths, codes, l, i)
      {
        if lengths[i] == l {
          var n := Weight(l);
          if p + n > LOOKUP_SIZE {
            StartMonotone(lengths, l, i + 1, MAX_CODE_BITS + 1, 0);
            return DAMAGED;
          }
          p := FillEntries(table, p, n, Entry(codes[i], l));
        }
      }
    }
    ghost var done := table[..p];
    var q := FillEntries(table, p, LOOKUP_SIZE - p, FILLER);
    assert table[..] == done + Rep(FILLER, LOOKUP_SIZE - p);
    return 0;
  }

  /** Writes n copies of an entry from position p on and returns the new position. */
  method FillEntries(table: array<Entry>, p: nat, n: nat, e: Entry) returns (q: nat)
    requires p + n <= table.Length
    modifies table
    ensures q == p + n && table[..q] == old(table[..p]) + Rep(e, n)
    ensures table[q..] == old(table[q..])
  {
    q := p;
    while q < p + n
      invariant p <= q <= p + n
      invariant table[..q] == old(table[..p]) + Rep(e, q - p)
      invariant table[q..] == old(table[q..])
    {
      table[q] := e;
      q := q + 1;
      assert table[..q] == table[..q - 1] + [e];
    }
  }
}
