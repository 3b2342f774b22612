/** The whole repair of cut code lengths, and exactly when it succeeds. */
module LengthRepair {
  import opened BitStrings
  import opened Options
  import opened LengthGroups
  import opened Tally
  import opened TreeRepair

  // ----- the condition -----

  /** The highest set bit. */
  function Top(e: nat): (t: nat)
    requires e > 0
    ensures Pow2(t) <= e < 2 * Pow2(t)
  {
    TopFrom(e, 0)
  }

  function TopFrom(e: nat, t: nat): (r: nat)
    requires Pow2(t) <= e
    ensures Pow2(r) <= e < 2 * Pow2(r)
    decreases e - Pow2(t)
  {
    if e < 2 * Pow2(t) then t else TopFrom(e, t + 1)
  }

  /** The lengths that are shorter than the level of the excess's highest bit. */
  function ShortSpan(c: seq<nat>, max: nat, top: nat): nat
  {
    if top < max then Span(c, max, 1, max - top - 1) else 0
  }

  /** Nothing to repair, or some used length is below the level of the highest bit of the excess. */
  ghost predicate CanRepair(c: seq<nat>, max: nat)
  {
    Excess(c, max) > 0 ==> exists i :: 0 <= i < |c| && 0 < c[i] && c[i] + Top(Excess(c, max)) < max
  }

  lemma ShortSpanIff(c: seq<nat>, max: nat, top: nat)
    requires top < max
    ensures ShortSpan(c, max, top) > 0 <==> exists i :: 0 <= i < |c| && 0 < c[i] && c[i] + top < max
  {
    if i :| 0 <= i < |c| && 0 < c[i] && c[i] + top < max {
      SpanAtLeast(c, i, max, max - top - 1);
    } else {
      SpanEmpty(c, max, 1, max - top - 1);
    }
  }

  // ----- bits of the sum below the top bit -----

  /** The sum still holds the top bit of the excess. */
  ghost predicate Holding(d: nat, top: nat, max: nat)
  {
    top < max && Pow2(max) + Pow2(top) <= d < Pow2(max) + 2 * Pow2(top)
  }

  lemma RoundUp(d: int, q: int, r: int, p: int)
    requires p > 0 && d == q * p && (2 * r) * p <= d && q % 2 == 1
    ensures (2 * r) * p + p <= d
  {
    ClearOdd(d, q, r, p);
  }

  /** The lowest set bit is at most the top bit; if it is lower, clearing it leaves the top bit there. */
  lemma BelowTop(d: nat, bit: nat, top: nat, max: nat)
    requires Holding(d, top, max) && LowestBit(d, bit, max)
    ensures bit <= top
    ensures bit < top ==> Pow2(max) + Pow2(top) + Pow2(bit) <= d
    ensures bit == top ==> d == Pow2(max) + Pow2(top)
  {
    hide Pow2;
    if bit > top {
      TooHigh(d, bit, top, max);
    } else if bit < top {
      LowerBit(d, bit, top, max);
    } else {
      OnlyTop(d, top, max);
    }
  }

  lemma LowerBit(d: nat, bit: nat, top: nat, max: nat)
    requires Holding(d, top, max) && LowestBit(d, bit, max) && bit < top
    ensures Pow2(max) + Pow2(top) + Pow2(bit) <= d
  {
    hide Pow2, LowestBit;
    var p, q := Pow2(bit), d / Pow2(bit);
    OddMultiple(d, bit, max);
    Pow2Halves(bit, max);
    Pow2Halves(bit, top);
    MulAddLeft(2 * Pow2(max - bit - 1), 2 * Pow2(top - bit - 1), p);
    RoundUp(d, q, Pow2(max - bit - 1) + Pow2(top - bit - 1), p);
  }

  lemma OnlyTop(d: nat, top: nat, max: nat)
    requires Holding(d, top, max) && LowestBit(d, top, max)
    ensures d == Pow2(max) + Pow2(top)
  {
    hide Pow2, LowestBit;
    var p, q := Pow2(top), d / Pow2(top);
    OddMultiple(d, top, max);
    Pow2Halves(top, max);
    var m := 2 * Pow2(max - top - 1);
    MulAddLeft(m, 1, p);
    MulAddLeft(m, 2, p);
    FactorAtLeast(m + 1, q, p);
    StrictFactor(q, m + 2, p);
  }

  lemma StrictFactor(a: int, b: int, p: int)
    requires p > 0 && a * p < b * p
    ensures a < b
  {
    if a >= b {
      MulLe(b, a, p);
    }
  }

  lemma TooHigh(d: nat, bit: nat, top: nat, max: nat)
    requires Holding(d, top, max) && top < bit <= max
    ensures Low(d, bit) != 0
  {
    hide Pow2;
    if Low(d, bit) == 0 {
      var p, q := Pow2(bit), d / Pow2(bit);
      assert d == q * p;
      Pow2Add(max - bit, bit);
      Pow2Monotone(top + 1, bit);
      Pow2Next(top);
      var m := Pow2(max - bit);
      MulAddLeft(m, 1, p);
      StrictFactor(q, m + 1, p);
      FactorAtLeast(m, q, p);
      StrictFactor(m, q, p);
    }
  }

  lemma Pow2Next(n: nat)
    ensures Pow2(n + 1) == 2 * Pow2(n) && Pow2(n) > 0
  {
  }

  // ----- necessity: without a short length the repair is stuck at the top bit at the latest -----

  /** While nothing short exists the top bit cannot be cleared. */
  ghost predicate Hopeless(s: seq<nat>, d: nat, top: nat, max: nat)
  {
    Holding(d, top, max) && ShortSpan(s, max, top) == 0
  }

  lemma HopelessStays(s: seq<nat>, s': seq<nat>, d: nat, d': nat, bit: nat, top: nat, max: nat)
    requires Hopeless(s, d, top, max) && PassReady(s, d, bit, max) && PassDone(s, s', bit, max) && !Stuck(s, max - bit)
    requires d' == Span(s', max, 1, max)
    ensures Hopeless(s', d', top, max)
  {
    hide Pow2, Span, LowestBit, SameUse;
    BelowTop(d, bit, top, max);
    if bit < top {
      assert LowKept(s, s', bit, max, max - top - 1);
    } else {
      NoneShort(s, max, top);
    }
  }

  lemma NoneShort(s: seq<nat>, max: nat, top: nat)
    requires top < max && ShortSpan(s, max, top) == 0
    ensures Stuck(s, max - top)
  {
    ShortSpanIff(s, max, top);
  }

  lemma HopelessGoesOn(s: seq<nat>, d: nat, top: nat, max: nat)
    requires Hopeless(s, d, top, max)
    ensures !LowestBit(d, max, max)
  {
    TooHigh(d, max, top, max);
  }

  // ----- sufficiency, for codes of at most 13 bits and at most 316 symbols -----

  /** Slots of lengths below the level of a bit. */
  function Below(s: seq<nat>, bit: nat): nat
    requires bit <= 12
  {
    Span(s, 13, 1, 12 - bit)
  }

  function Used01(l: nat): nat { if l > 0 then 1 else 0 }

  /** Symbols of the cut length take one slot each, those of the levels from `bit` at most 2^bit. */
  lemma {:induction false} SlotsBySymbols(s: seq<nat>, bit: nat, short: bool)
    requires bit <= 12 && forall i :: 0 <= i < |s| ==> s[i] <= 13
    requires short ==> exists i :: 0 <= i < |s| && 1 <= s[i] <= 12 - bit
    ensures UsedCount(s) * Pow2(bit)
            >= Span(s, 13, 13 - bit, 12) + Span(s, 13, 13, 13) * Pow2(bit) + if short then Pow2(bit) else 0
  {
    if s != [] {
      var n, p := |s| - 1, Pow2(bit);
      var l := s[n];
      var here := 1 <= l <= 12 - bit;
      SlotsBySymbols(s[..n], bit, short && !here) by {
        if short && !here {
          var i :| 0 <= i < |s| && 1 <= s[i] <= 12 - bit;
          assert s[..n][i] == s[i];
        }
      }
      MulAddLeft(UsedCount(s[..n]), Used01(l), p);
      MulAddLeft(Span(s[..n], 13, 13, 13), Slots(l, 13, 13, 13), p);
      OneSymbol(l, bit);
    }
  }

  lemma SlotsAt(l: nat, bit: nat)
    requires l <= 13 && bit <= 12
    ensures Slots(l, 13, 13, 13) * Pow2(bit) == if l == 13 then Pow2(bit) else 0
    ensures Slots(l, 13, 13 - bit, 12) == if 13 - bit <= l <= 12 then Pow2(13 - l) else 0
  {
    ZeroPower();
  }

  lemma OneSymbol(l: nat, bit: nat)
    requires l <= 13 && bit <= 12
    ensures Used01(l) * Pow2(bit)
            >= Slots(l, 13, 13 - bit, 12) + Slots(l, 13, 13, 13) * Pow2(bit) + if 1 <= l <= 12 - bit then Pow2(bit) else 0
  {
    ZeroPower();
    hide Pow2;
    var p := Pow2(bit);
    SlotsAt(l, bit);
    if 0 < l < 13 && 13 - bit <= l {
      Pow2Monotone(13 - l, bit);
    }
  }

  /** An overfull cut code with few symbols has many slots at short lengths. */
  lemma FewSymbolsShort(c: seq<nat>, bit: nat, short: bool)
    requires bit <= 12 && Repairable(c, 13) && Excess(c, 13) > 0 && forall i :: 0 <= i < |c| ==> c[i] <= 13
    requires short ==> exists i :: 0 <= i < |c| && 1 <= c[i] <= 12 - bit
    ensures Below(c, bit) >= 8192 + Excess(c, 13) * Pow2(bit) - UsedCount(c) * Pow2(bit) + if short then Pow2(bit) else 0
  {
    SlotsBySymbols(c, bit, short);
    SpanSplit(c, 13, 1, 12 - bit, 12);
    SpanSplit(c, 13, 1, 12, 13);
    RepairableAt13(c);
    hide Span, UsedCount, Pow2, Repairable;
    ShortArithmetic(Span(c, 13, 1, 12), Span(c, 13, 13, 13), Excess(c, 13), Pow2(bit));
  }

  lemma RepairableAt13(c: seq<nat>)
    requires Repairable(c, 13) && Excess(c, 13) > 0
    ensures Span(c, 13, 1, 12) < 8192 && Pow2(13) == 8192
  {
    Pow2Values();
  }

  lemma ShortArithmetic(a: int, m: int, e: int, p: int)
    requires a < 8192 && a + m == 8192 + e && p >= 1
    ensures m * p >= e * p + 8192 - a
  {
    MulLe(1, p, 8192 - a);
    MulAddLeft(e, 8192 - a, p);
  }

  /** In every state, few long symbols leave many short slots. */
  lemma {:induction false} LongSlots(s: seq<nat>, lo: nat)
    requires 1 <= lo <= 13 && forall i :: 0 <= i < |s| ==> s[i] <= 13
    ensures Span(s, 13, lo, 13) <= UsedCount(s) * Pow2(13 - lo)
  {
    if s != [] {
      var l, p := s[|s| - 1], Pow2(13 - lo);
      LongSlots(s[..|s| - 1], lo);
      MulAddLeft(UsedCount(s[..|s| - 1]), Used01(l), p);
      if lo <= l {
        Pow2Monotone(13 - l, 13 - lo);
      }
    }
  }

  /** What every state of a repair that can succeed satisfies, before the pass at `bit`. */
  ghost predicate Hopeful(s: seq<nat>, bit: nat, top: nat, e: nat)
  {
    && UsedCount(s) <= 316 && (forall i :: 0 <= i < |s| ==> s[i] <= 13)
    && top <= 8 && e < 316 && Pow2(top) <= e && ShortSpan(s, 13, top) > 0
    && (bit <= 5 && e >= 96 ==> Below(s, 5) >= 1152)
    && (bit <= 6 && e >= 192 ==> Below(s, 6) >= 257)
  }

  lemma PowersUpTo9()
    ensures Pow2(0) == 1 && Pow2(1) == 2 && Pow2(2) == 4 && Pow2(3) == 8 && Pow2(4) == 16 && Pow2(5) == 32
    ensures Pow2(6) == 64 && Pow2(7) == 128 && Pow2(8) == 256 && Pow2(9) == 512 && Pow2(13) == 8192
  {
  }

  lemma StartsHopeful(c: seq<nat>, bit: nat)
    requires Repairable(c, 13) && Excess(c, 13) > 0 && UsedCount(c) <= 316 && CanRepair(c, 13)
    requires forall i :: 0 <= i < |c| ==> c[i] <= 13
    ensures Hopeful(c, bit, Top(Excess(c, 13)), Excess(c, 13)) && Holding(Span(c, 13, 1, 13), Top(Excess(c, 13)), 13)
  {
    hide Span, UsedCount, Pow2;
    var e := Excess(c, 13);
    var top := Top(e);
    PowersUpTo9();
    SlotsBySymbols(c, 0, false);
    SpanSplit(c, 13, 1, 12, 13);
    assert e < 316;
    if top >= 9 {
      Pow2Monotone(9, top);
    }
    ShortSpanIff(c, 13, top);
    if e >= 96 {
      FewSymbolsShort(c, 5, false);
    }
    if e >= 192 {
      if top <= 6 {
        Pow2Monotone(top, 6);
      }
      FewSymbolsShort(c, 6, true);
    }
  }

  /** Below the top bit some length under the bit's level is left besides the last short one. */
  lemma PlentyBelow(s: seq<nat>, d: nat, bit: nat, top: nat, e: nat)
    requires Hopeful(s, bit, top, e) && PassReady(s, d, bit, 13) && Holding(d, top, 13) && bit < top && d <= 8192 + e
    ensures Below(s, bit) > 2 * Pow2(top) && (bit <= 4 ==> Below(s, bit) >= 3136)
  {
    hide Span, UsedCount, Pow2, LowestBit;
    PowersUpTo9();
    BelowTop(d, bit, top, 13);
    Pow2Monotone(top, 8);
    if bit <= 4 {
      LongSlots(s, 13 - bit);
      SpanSplit(s, 13, 1, 12 - bit, 13);
      Pow2Monotone(bit, 4);
      MulLe(UsedCount(s), 316, Pow2(bit));
    } else if bit == 5 {
      Pow2Monotone(6, top);
    } else {
      Pow2Monotone(6, bit);
      Pow2Monotone(7, top);
      if top == 8 {
      }
    }
  }

  lemma StaysHopeful(s: seq<nat>, s': seq<nat>, d: nat, bit: nat, bit': nat, top: nat, e: nat)
    requires Hopeful(s, bit, top, e) && PassReady(s, d, bit, 13) && Holding(d, top, 13) && bit < top && d <= 8192 + e
    requires PassDone(s, s', bit, 13) && bit < bit' && forall i :: 0 <= i < |s'| ==> s'[i] <= 13
    ensures Hopeful(s', bit', top, e)
  {
    hide Span, UsedCount, Pow2, LowestBit;
    PowersUpTo9();
    PlentyBelow(s, d, bit, top, e);
    BelowTop(d, bit, top, 13);
    assert LowKept(s, s', bit, 13, 12 - top);
    Pow2Next(top);
    if bit' <= 5 && e >= 96 {
      assert LowKept(s, s', bit, 13, 7);
    }
    if bit' <= 6 && e >= 192 {
      assert LowKept(s, s', bit, 13, 6);
    }
  }

  lemma HopefulNotStuck(s: seq<nat>, d: nat, bit: nat, top: nat, e: nat)
    requires Hopeful(s, bit, top, e) && Holding(d, top, 13) && LowestBit(d, bit, 13)
    ensures bit <= top && !Stuck(s, 13 - bit)
  {
    hide Span, Pow2, LowestBit;
    BelowTop(d, bit, top, 13);
    ShortSpanIff(s, 13, top);
  }

  lemma TopIs(e: nat, t: nat)
    requires Pow2(t) <= e < 2 * Pow2(t)
    ensures Top(e) == t
  {
    if Top(e) < t {
      Pow2Monotone(Top(e) + 1, t);
    } else if Top(e) > t {
      Pow2Monotone(t + 1, Top(e));
    }
  }

  // ----- the repair loop -----

  /** Passes at one set bit after the other; none is possible where no length is short enough. */
  ghost function Repaired(s: seq<nat>, from: nat, max: nat): (r: Option<seq<nat>>)
    requires from <= max
    ensures r.Some? ==> |r.value| == |s|
    decreases max - from
  {
    var bit := FirstSet(Span(s, max, 1, max), from, max);
    if bit == max then Some(s)
    else if LongestUsed(s, max - bit) == 0 then None
    else Repaired(Passed(s, bit, max), bit + 1, max)
  }

  lemma RepairedFrom(s: seq<nat>, from: nat, bit: nat, max: nat)
    requires from <= max && bit == FirstSet(Span(s, max, 1, max), from, max)
    ensures Repaired(s, from, max) == Repaired(s, bit, max) && FirstSet(Span(s, max, 1, max), bit, max) == bit
  {
    hide Span, LongestUsed, Passed, FirstSet, BitSet, Pow2;
    FirstIsFirst(Span(s, max, 1, max), from, max);
  }

  lemma RepairedOnce(s: seq<nat>, bit: nat, max: nat)
    requires bit < max && FirstSet(Span(s, max, 1, max), bit, max) == bit && LongestUsed(s, max - bit) > 0
    ensures Repaired(s, bit, max) == Repaired(Passed(s, bit, max), bit + 1, max)
  {
    hide Span, LongestUsed, Passed, FirstSet;
  }

  /** The next pass starts at the next set bit. */
  lemma RepairedNext(s: seq<nat>, s': seq<nat>, bit: nat, next: nat, max: nat)
    requires bit < max && FirstSet(Span(s, max, 1, max), bit, max) == bit && LongestUsed(s, max - bit) > 0
    requires s' == Passed(s, bit, max) && bit < next && next == FirstSet(Span(s', max, 1, max), bit, max)
    ensures Repaired(s, bit, max) == Repaired(s', next, max) && FirstSet(Span(s', max, 1, max), next, max) == next
  {
    hide *;
    SetFromNext(Span(s', max, 1, max), bit, max);
    RepairedOnce(s, bit, max);
    RepairedFrom(s', bit + 1, next, max);
  }

  // ----- the order of the lengths -----

  /** Exactly full lengths stay as they are. */
  lemma RepairedSame(c: seq<nat>, max: nat)
    requires Excess(c, max) == 0
    ensures Repaired(c, 0, max) == Some(c)
  {
    hide Span, LongestUsed, Passed;
    NoBitBelow(0, max);
  }

  lemma {:induction false} NoBitBelow(from: nat, max: nat)
    requires from <= max
    ensures FirstSet(Pow2(max), from, max) == max
    decreases max - from
  {
    if from < max {
      Pow2Add(max - from, from);
      DivModUnique(Pow2(max - from), Pow2(from), 0);
      PowerTwice(max - from - 1);
      NoBitBelow(from + 1, max);
    }
  }

  /** Whether longer lengths are still not shorter than shorter ones. */
  ghost predicate InOrder(c: seq<nat>, s: seq<nat>)
  {
    |s| == |c| && forall a, b :: 0 <= a < |c| && 0 <= b < |c| && 0 < c[a] < c[b] ==> s[a] <= s[b]
  }

  /** One pass keeps the order; more than one may not. */
  lemma PassInOrder(s: seq<nat>, bit: nat, max: nat)
    requires bit < max && LongestUsed(s, max - bit) > 0
    ensures InOrder(s, Passed(s, bit, max))
  {
    hide LongestUsed, Passed, Members;
    PassedSays(s, bit, max);
    var x := Members(s, LongestUsed(s, max - bit))[0];
    hide OnePass;
    forall a, b | 0 <= a < |s| && 0 <= b < |s| && 0 < s[a] < s[b] ensures Passed(s, bit, max)[a] <= Passed(s, bit, max)[b] {
      PassKeepsOrder(s, Passed(s, bit, max), max - bit, x, a, b);
    }
  }

  /** Nothing to repair, or a single bit: at most one pass. */
  ghost predicate OneBit(c: seq<nat>, max: nat)
  {
    Excess(c, max) == 0 || exists b: nat :: b < max && Excess(c, max) == Pow2(b)
  }

  lemma RestOfSum(q: nat, m: nat, r: nat)
    requires 0 < r < m
    ensures (q * m + r) % m != 0
  {
    DivModUnique(q, m, r);
  }

  lemma LowAbove(max: nat, b: nat, bit: nat)
    requires b < bit <= max
    ensures Low(Pow2(max) + Pow2(b), bit) != 0
  {
    hide Pow2;
    Pow2Add(max - bit, bit);
    Pow2Monotone(b + 1, bit);
    PowerTwice(b);
    RestOfSum(Pow2(max - bit), Pow2(bit), Pow2(b));
  }

  lemma EvenQuotient(x: nat, y: nat, m: nat)
    requires m > 0
    ensures Quot((2 * x) * m + (2 * y) * m, m) % 2 == 0
  {
    MulAddLeft(2 * x, 2 * y, m);
    DivModUnique(2 * x + 2 * y, m, 0);
  }

  lemma ClearBelow(max: nat, b: nat, bit: nat)
    requires bit < b < max
    ensures !BitSet(Pow2(max) + Pow2(b), bit)
  {
    hide Pow2, Quot;
    Pow2Halves(bit, max);
    Pow2Halves(bit, b);
    EvenQuotient(Pow2(max - bit - 1), Pow2(b - bit - 1), Pow2(bit));
  }

  lemma LowestOfSum(max: nat, b: nat, bit: nat)
    requires b < max && LowestBit(Pow2(max) + Pow2(b), bit, max)
    ensures bit == b
  {
    hide Pow2, BitSet, Low;
    if bit > b {
      LowAbove(max, b, bit);
    } else if bit < b {
      ClearBelow(max, b, bit);
    }
  }

  /** How far a repair that takes at most one pass has come. */
  ghost predicate OneBitCourse(c: seq<nat>, s: seq<nat>, d: nat, max: nat)
  {
    OneBit(c, max) ==> (s == c && d == Pow2(max) + Excess(c, max)) || (d == Pow2(max) && InOrder(c, s))
  }

  lemma OneBitPass(c: seq<nat>, s: seq<nat>, d: nat, d': nat, bit: nat, max: nat)
    requires OneBitCourse(c, s, d, max) && bit < max && LowestBit(d, bit, max) && d > Pow2(max) && LongestUsed(s, max - bit) > 0
    requires d' == d - Pow2(bit)
    ensures OneBitCourse(c, Passed(s, bit, max), d', max)
  {
    hide Span, Pow2, Passed, LongestUsed, InOrder, LowestBit;
    if OneBit(c, max) {
      assert Excess(c, max) != 0;
      var b: nat :| b < max && Excess(c, max) == Pow2(b);
      LowestOfSum(max, b, bit);
      PassInOrder(s, bit, max);
    }
  }

  lemma OneBitStarts(c: seq<nat>, d: nat, max: nat)
    requires d == Span(c, max, 1, max)
    ensures OneBitCourse(c, c, d, max)
  {
    hide Span, InOrder, OneBit;
  }

  lemma PassSum(s: seq<nat>, s': seq<nat>, bit: nat, max: nat)
    requires bit < max && PassDone(s, s', bit, max)
    ensures Span(s', max, 1, max) == Span(s, max, 1, max) - Pow2(bit)
  {
    hide Span, SameUse, LowKept;
  }

  lemma ExactIffSame(c: seq<nat>, s: seq<nat>, max: nat)
    requires Repaired(c, 0, max) == Some(s) && Span(s, max, 1, max) == Pow2(max)
    ensures s == c <==> Excess(c, max) == 0
  {
    hide Span, Repaired;
    if Excess(c, max) == 0 {
      RepairedSame(c, max);
    }
  }

  lemma OneBitEnds(c: seq<nat>, s: seq<nat>, max: nat)
    requires OneBitCourse(c, s, Pow2(max), max)
    ensures OneBit(c, max) ==> InOrder(c, s)
  {
    hide Span;
  }

  /** Cut lengths for which two passes do not. */
  function Crossing(): seq<nat> { [4, 4, 3, 1, 4, 4, 4, 4, 4, 4, 4] }

  function OnceCrossing(): seq<nat> { [4, 4, 4, 1, 4, 4, 4, 4, 4, 4, 4] }

  function Crossed(): seq<nat> { [3, 3, 4, 2, 4, 4, 4, 4, 4, 4, 4] }

  lemma LevelSpan(s: seq<nat>, g: seq<nat>, l: nat)
    requires 1 <= l <= 4 && Group(s, g, l)
    ensures Span(s, 4, l, l) == |g| * Pow2(4 - l) && Members(s, l) == g
  {
    GroupSpan(s, g, l, 4);
    GroupIs(s, g, l);
  }

  /** Three lengths of at most four bits by their groups. */
  lemma SpanOf4(s: seq<nat>, g1: seq<nat>, g2: seq<nat>, g3: seq<nat>, g4: seq<nat>)
    requires Group(s, g1, 1) && Group(s, g2, 2) && Group(s, g3, 3) && Group(s, g4, 4)
    ensures Span(s, 4, 1, 4) == 8 * |g1| + 4 * |g2| + 2 * |g3| + |g4|
    ensures Members(s, 1) == g1 && Members(s, 2) == g2 && Members(s, 3) == g3 && Members(s, 4) == g4
  {
    hide Span, Group, Members;
    LevelSpan(s, g1, 1);
    LevelSpan(s, g2, 2);
    LevelSpan(s, g3, 3);
    LevelSpan(s, g4, 4);
    SpanSplit(s, 4, 1, 1, 4);
    SpanSplit(s, 4, 2, 2, 4);
    SpanSplit(s, 4, 3, 3, 4);
    assert Pow2(0) == 1 && Pow2(1) == 2 && Pow2(2) == 4 && Pow2(3) == 8;
  }

  lemma CrossingGroups()
    ensures Span(Crossing(), 4, 1, 4) == 19 && Members(Crossing(), 3) == [2]
  {
    hide Span, Members;
    SpanOf4(Crossing(), [3], [], [2], [0, 1, 4, 5, 6, 7, 8, 9, 10]);
  }

  lemma OnceCrossingGroups()
    ensures Span(OnceCrossing(), 4, 1, 4) == 18
    ensures Members(OnceCrossing(), 1) == [3] && Members(OnceCrossing(), 2) == [] && Members(OnceCrossing(), 3) == []
  {
    hide Span, Members;
    SpanOf4(OnceCrossing(), [3], [], [], [0, 1, 2, 4, 5, 6, 7, 8, 9, 10]);
  }

  lemma LongerGroups()
    ensures Members(OnceCrossing()[3 := 2], 3) == []
    ensures Members(OnceCrossing()[3 := 2], 4) == [0, 1, 2, 4, 5, 6, 7, 8, 9, 10]
  {
    hide Span, Members;
    SpanOf4(OnceCrossing()[3 := 2], [], [3], [], [0, 1, 2, 4, 5, 6, 7, 8, 9, 10]);
  }

  lemma CrossedGroups()
    ensures Span(Crossed(), 4, 1, 4) == 16
  {
    CrossedLong();
    hide Span, Members;
    SpanOf4(Crossed(), [], [3], [0, 1], [2, 4, 5, 6, 7, 8, 9, 10]);
  }

  lemma CrossedLong()
    ensures Group(Crossed(), [2, 4, 5, 6, 7, 8, 9, 10], 4)
  {
  }

  lemma CrossingFirst()
    ensures LongestUsed(Crossing(), 4) == 3 && Passed(Crossing(), 0, 4) == OnceCrossing()
  {
    hide Members;
    CrossingGroups();
  }

  lemma CrossingSecond()
    ensures LongestUsed(OnceCrossing(), 3) == 1 && Passed(OnceCrossing(), 1, 4) == Crossed()
  {
    hide Members;
    var c := OnceCrossing()[3 := 2];
    OnceCrossingGroups();
    LongerGroups();
    assert LongestUsed(OnceCrossing(), 2) == 1;
    assert Lengthened(OnceCrossing(), 1) == c;
    ShortenedNone(c, 3);
    FilledNext(c, 3, 1, 4);
    FilledNext(c, 4, 2, 4);
    NothingFilled(ShortenedFirst(c, 4, 2), 5, 4);
    assert Members(c, 4)[..2] == [0, 1];
    assert ShortenedFirst(c, 4, 2) == Crossed();
    assert Pow2(1) == 2;
  }

  lemma ShortenedNone(s: seq<nat>, l: nat)
    requires 1 <= l
    ensures ShortenedFirst(s, l, 0) == s
  {
  }

  lemma FilledNext(s: seq<nat>, ilen: nat, space: nat, max: nat)
    requires 1 <= ilen <= max && space > 0
    ensures var count := LengthGroups.Smaller(|Members(s, ilen)|, space);
            Filled(s, ilen, space, max) == Filled(ShortenedFirst(s, ilen, count), ilen + 1, 2 * (space - count), max)
  {
    hide Members, ShortenedFirst;
  }

  /** The symbol of length 3 ends up longer than two of length 4: it is made one of them first, and they come before it. */
  lemma CrossingRepaired()
    ensures Repaired(Crossing(), 0, 4) == Some(Crossed()) && !InOrder(Crossing(), Crossed())
  {
    CrossingGroups();
    OnceCrossingGroups();
    CrossedGroups();
    CrossingFirst();
    CrossingSecond();
    SetBits();
    OrderCrossed();
    hide *;
    RepairedFrom(Crossing(), 0, 0, 4);
    RepairedOnce(Crossing(), 0, 4);
    RepairedFrom(OnceCrossing(), 1, 1, 4);
    RepairedOnce(OnceCrossing(), 1, 4);
    RepairedFrom(Crossed(), 2, 4, 4);
    RepairedEnds(Crossed(), 4, 4);
  }

  lemma SetBits()
    ensures FirstSet(19, 0, 4) == 0 && FirstSet(18, 1, 4) == 1 && FirstSet(16, 2, 4) == 4 && FirstSet(16, 4, 4) == 4
  {
    assert Pow2(0) == 1 && Pow2(1) == 2 && Pow2(2) == 4 && Pow2(3) == 8;
  }

  lemma OrderCrossed()
    ensures !InOrder(Crossing(), Crossed())
  {
    assert 0 < Crossing()[2] < Crossing()[0] && Crossed()[2] > Crossed()[0];
  }

  lemma SetFromNext(v: nat, bit: nat, max: nat)
    requires bit < max && FirstSet(v, bit, max) > bit
    ensures FirstSet(v, bit + 1, max) == FirstSet(v, bit, max)
  {
    hide BitSet;
  }

  lemma FirstIsFirst(v: nat, from: nat, max: nat)
    requires from <= max
    ensures FirstSet(v, FirstSet(v, from, max), max) == FirstSet(v, from, max)
  {
    hide BitSet;
  }

  lemma RepairedEnds(s: seq<nat>, bit: nat, max: nat)
    requires bit <= max && FirstSet(Span(s, max, 1, max), bit, max) == bit
    ensures bit == max ==> Repaired(s, bit, max) == Some(s)
    ensures bit < max && LongestUsed(s, max - bit) == 0 ==> Repaired(s, bit, max) == None
  {
    hide Span, LongestUsed, Passed;
  }

  lemma RepairedStarts(s: seq<nat>, bit: nat, max: nat)
    requires bit == FirstSet(Span(s, max, 1, max), 0, max)
    ensures Repaired(s, 0, max) == Repaired(s, bit, max) && FirstSet(Span(s, max, 1, max), bit, max) == bit
  {
    RepairedFrom(s, 0, bit, max);
  }

  /** What the loop knows of the way to success or failure; nothing is left to know once the sum is exact. */
  ghost predicate Course(c: seq<nat>, s: seq<nat>, d: nat, bit: nat, max: nat)
  {
    Excess(c, max) > 0 ==>
      var top := Top(Excess(c, max));
      && (!CanRepair(c, max) ==> Hopeless(s, d, top, max))
      && (CanRepair(c, max) && max == 13 && UsedCount(c) <= 316 && d > Pow2(max) ==>
            Hopeful(s, bit, top, Excess(c, max)) && Holding(d, top, max))
  }

  lemma CourseStarts(c: seq<nat>, d: nat, bit: nat, max: nat)
    requires Repairable(c, max) && d == Span(c, max, 1, max) && forall i :: 0 <= i < |c| ==> c[i] <= max
    ensures Course(c, c, d, bit, max)
  {
    hide Span, UsedCount, Pow2;
    if Excess(c, max) > 0 {
      var top := Top(Excess(c, max));
      TopBelowMax(c, max);
      ShortSpanIff(c, max, top);
      if CanRepair(c, max) && max == 13 && UsedCount(c) <= 316 {
        StartsHopeful(c, bit);
      }
    }
  }

  lemma TopBelowMax(c: seq<nat>, max: nat)
    requires Repairable(c, max) && Excess(c, max) > 0
    ensures Top(Excess(c, max)) < max
  {
    hide Span;
    if Top(Excess(c, max)) >= max {
      Pow2Monotone(max, Top(Excess(c, max)));
    }
  }

  lemma CourseGoesOn(c: seq<nat>, s: seq<nat>, s': seq<nat>, d: nat, d': nat, bit: nat, bit': nat, max: nat)
    requires Course(c, s, d, bit, max) && PassReady(s, d, bit, max) && PassDone(s, s', bit, max) && !Stuck(s, max - bit)
    requires d' == Span(s', max, 1, max) && bit < bit' && d <= Pow2(max) + Excess(c, max) && d > Pow2(max)
    requires forall i :: 0 <= i < |s'| ==> s'[i] <= max
    ensures Course(c, s', d', bit', max)
  {
    hide Span, UsedCount, Pow2, LowestBit, Stuck, Hopeful, Hopeless;
    if Excess(c, max) > 0 {
      var top := Top(Excess(c, max));
      if !CanRepair(c, max) {
        HopelessStays(s, s', d, d', bit, top, max);
      } else if max == 13 && UsedCount(c) <= 316 && d' > Pow2(max) {
        PassBounds(s, d, bit, max);
        BelowTop(d, bit, top, 13);
        PowersUpTo9();
        StaysHopeful(s, s', d, bit, bit', top, Excess(c, 13));
      }
    }
  }

  lemma PassUse(s: seq<nat>, s': seq<nat>, bit: nat, max: nat)
    requires bit < max && PassDone(s, s', bit, max)
    ensures SameUse(s, s')
  {
  }

  lemma PassBounds(s: seq<nat>, d: nat, bit: nat, max: nat)
    requires PassReady(s, d, bit, max)
    ensures LowestBit(d, bit, max) && d == Span(s, max, 1, max) && bit < max && Pow2(max) < d
  {
    hide Pow2, Span;
    ClearLowest(d, bit, max);
    Pow2Next(bit);
  }

  /** A stuck pass means that no length was short enough. */
  lemma StuckCourse(c: seq<nat>, s: seq<nat>, d: nat, bit: nat, max: nat)
    requires Course(c, s, d, bit, max) && PassReady(s, d, bit, max) && Stuck(s, max - bit) && d <= Pow2(max) + Excess(c, max)
    ensures max == 13 && UsedCount(c) <= 316 ==> !CanRepair(c, max)
  {
    hide Span, UsedCount, Pow2, LowestBit, Stuck, Hopeful, Hopeless;
    PassBounds(s, d, bit, max);
    if max == 13 && UsedCount(c) <= 316 && CanRepair(c, max) {
      HopefulNotStuck(s, d, bit, Top(Excess(c, max)), Excess(c, max));
    }
  }

  lemma FinishedCourse(c: seq<nat>, s: seq<nat>, d: nat, max: nat)
    requires Course(c, s, d, max, max) && LowestBit(d, max, max)
    ensures CanRepair(c, max)
  {
    hide Span, UsedCount, Pow2, LowestBit, Hopeful, Hopeless;
    if Excess(c, max) > 0 && !CanRepair(c, max) {
      HopelessGoesOn(s, d, Top(Excess(c, max)), max);
    }
  }

  /**
    * The whole repair: a full code of the same symbols. It succeeds only if some length is short enough for the highest
    * bit of the excess, and for 13-bit codes of up to 316 symbols always then.
    */
  method RepairLengths(lengths: array<nat>, max: nat) returns (ok: bool)
    requires Repairable(Cut(lengths[..], max), max)
    modifies lengths
    ensures SameUse(Cut(old(lengths[..]), max), lengths[..])
    ensures forall i :: 0 <= i < lengths.Length ==> lengths[i] <= max
    ensures ok ==> Span(lengths[..], max, 1, max) == Pow2(max) && CanRepair(Cut(old(lengths[..]), max), max)
    ensures var c := Cut(old(lengths[..]), max); max == 13 && UsedCount(c) <= 316 && CanRepair(c, max) ==> ok
    ensures var c := Cut(old(lengths[..]), max); !ok ==> UsedCount(c) * Excess(c, max) >= Pow2(max)
    ensures var r := Repaired(Cut(old(lengths[..]), max), 0, max); if ok then r == Some(lengths[..]) else r.None?
    ensures var c := Cut(old(lengths[..]), max); ok ==> (lengths[..] == c <==> Excess(c, max) == 0)
    ensures var c := Cut(old(lengths[..]), max); ok && OneBit(c, max) ==> InOrder(c, lengths[..])
  {
    hide Groups, Span, SameUse, LowestBit, Pow2, PassReady, PassDone, Stuck, Repairable, Course, CanRepair, UsedCount,
         Repaired, FirstSet, Passed, LongestUsed, OneBit, InOrder, OneBitCourse;
    var scl := new seq<nat>[max + 2](_ => []);
    var cnt := new nat[max + 2](_ => 0);
    ghost var c := Cut(lengths[..], max);
    RepairableBounds(c, max);
    SortByLength(lengths, scl, cnt, max);
    var dcode := KraftSum(cnt[..], max, c, scl[..]);
    var bit := NextBit(dcode, 0, max);
    SameUseSelf(c);
    if bit < max {
      FirstPassReady(c, dcode, bit, max);
    }
    CourseStarts(c, dcode, bit, max);
    RepairedStarts(c, bit, max);
    OneBitStarts(c, dcode, max);
    ok := true;
    while bit != max
      invariant bit <= max && Groups(lengths[..], scl[..], cnt[..], max) && SameUse(c, lengths[..])
      invariant dcode == Span(lengths[..], max, 1, max) && LowestBit(dcode, bit, max)
      invariant Pow2(max) <= dcode <= Span(c, max, 1, max)
      invariant bit < max ==> PassReady(lengths[..], dcode, bit, max)
      invariant Course(c, lengths[..], dcode, bit, max)
      invariant Repaired(c, 0, max) == Repaired(lengths[..], bit, max) && FirstSet(dcode, bit, max) == bit
      invariant OneBitCourse(c, lengths[..], dcode, max)
      decreases max - bit
    {
      ghost var s, d := lengths[..], dcode;
      PassReadyBounds(s, d, bit, max);
      dcode, ok := RepairPass(lengths, scl, cnt, dcode, bit, max);
      if !ok {
        RepairedEnds(s, bit, max);
        StuckCourse(c, s, d, bit, max);
        StuckExcess(s, d, bit, max, Span(c, max, 1, max) - Pow2(max));
        GroupsMax(lengths[..], scl[..], cnt[..], max);
        SameUseCount(c, s);
        return false;
      }
      PassUse(s, lengths[..], bit, max);
      SameUseTransitive(c, s, lengths[..]);
      StillLow(s, lengths[..], d, bit, max);
      var next := NextBit(dcode, bit, max);
      NextPassReady(s, lengths[..], d, dcode, bit, next, max);
      RepairedNext(s, lengths[..], bit, next, max);
      PassBounds(s, d, bit, max);
      PassSum(s, lengths[..], bit, max);
      OneBitPass(c, s, d, dcode, bit, max);
      GroupsMax(lengths[..], scl[..], cnt[..], max);
      CourseGoesOn(c, s, lengths[..], d, dcode, bit, next, max);
      bit := next;
    }
    GroupsMax(lengths[..], scl[..], cnt[..], max);
    RepairedEnds(lengths[..], bit, max);
    ExactlyFullAt(dcode, max);
    FinishedCourse(c, lengths[..], dcode, max);
    OneBitEnds(c, lengths[..], max);
    ExactIffSame(c, lengths[..], max);
  }
}
