/** The rANS coder: normalised tables, one symbol in and out of the state, whole symbol sequences. */
module Rans {
  import opened BitStrings
  import opened Tally

  const PROB_SCALE := 4096
  const RANS_L := 0x80_0000
  const RANS_TOP := 0x8000_0000
  const MAX_SYMS := 344

  // ----- tables -----

  /** Frequencies and their running sums, as 16-bit words. */
  datatype RansTable = RansTable(freq: seq<nat>, cum: seq<nat>)

  function RunningSums(freq: seq<nat>, n: nat): (c: seq<nat>)
    requires n <= |freq|
    ensures |c| == n
  {
    if n == 0 then [] else if n == 1 then [0]
    else var c := RunningSums(freq, n - 1); c + [(c[n - 2] + freq[n - 2]) % 65536]
  }

  /** A table the coder can work with: the frequencies share out the whole scale. */
  ghost predicate Fair(tab: RansTable)
  {
    && |tab.freq| == |tab.cum| == MAX_SYMS && Sum(tab.freq) == PROB_SCALE
    && forall i :: 0 <= i < MAX_SYMS ==> tab.cum[i] == Sum(tab.freq[..i])
  }

  lemma {:induction false} SumPart(f: seq<nat>, i: nat)
    requires i < |f|
    ensures Sum(f[..i]) + f[i] == Sum(f[..i + 1]) <= Sum(f)
    decreases |f| - i
  {
    assert f[..i + 1][..i] == f[..i];
    if i + 1 == |f| {
      assert f[..i + 1] == f;
    } else {
      SumPart(f, i + 1);
    }
  }

  lemma {:induction false} SumOrder(f: seq<nat>, i: nat, j: nat)
    requires i <= j <= |f|
    ensures Sum(f[..i]) <= Sum(f[..j])
    decreases j - i
  {
    if i < j {
      SumPart(f, i);
      SumOrder(f, i + 1, j);
    }
  }

  lemma {:induction false} RunningSumsAre(freq: seq<nat>, n: nat)
    requires n <= |freq| && Sum(freq) <= PROB_SCALE
    ensures forall i :: 0 <= i < n ==> RunningSums(freq, n)[i] == Sum(freq[..i])
  {
    if n == 1 {
      assert freq[..0] == [];
    } else if n > 1 {
      RunningSumsAre(freq, n - 1);
      SumPart(freq, n - 2);
    }
  }

  /** A frequency in proportion to its count, at least 1. */
  function ScaledOne(count: nat, total: nat): nat
    requires total > 0
  {
    if count == 0 then 0 else if count * PROB_SCALE / total == 0 then 1 else count * PROB_SCALE / total
  }

  function Scaled(raw: seq<nat>, total: nat): (f: seq<nat>)
    requires total > 0
    ensures |f| == |raw|
  {
    seq(|raw|, i requires 0 <= i < |raw| => ScaledOne(raw[i], total))
  }

  /** The first of the largest entries. */
  function Largest(f: seq<nat>, n: nat): (l: nat)
    requires 1 <= n <= |f|
    ensures l < n && (forall i :: 0 <= i < n ==> f[i] <= f[l])
  {
    if n == 1 then 0 else var l := Largest(f, n - 1); if f[n - 1] > f[l] then n - 1 else l
  }

  /** The whole correction goes to the largest frequency, in a 16-bit word. */
  function Corrected(f: seq<nat>): (r: seq<nat>)
    requires |f| >= 1
    ensures |r| == |f|
  {
    var l := Largest(f, |f|);
    if Sum(f) == PROB_SCALE then f else f[l := (f[l] + PROB_SCALE - Sum(f)) % 65536]
  }

  function Normalised(raw: seq<nat>): (r: RansTable)
    requires |raw| == MAX_SYMS
    ensures |r.freq| == |r.cum| == MAX_SYMS
  {
    if Sum(raw) == 0 then RansTable(seq(MAX_SYMS, _ => 0), seq(MAX_SYMS, _ => 0))
    else
      var f := Corrected(Scaled(raw, Sum(raw)));
      RansTable(f, RunningSums(f, MAX_SYMS))
  }

  /** What clamping small counts up to 1 adds must be less than the largest frequency can give back. */
  predicate Correctable(raw: seq<nat>)
    requires |raw| == MAX_SYMS && Sum(raw) > 0
  {
    var f := Scaled(raw, Sum(raw));
    Sum(f) - PROB_SCALE < f[Largest(f, MAX_SYMS)]
  }

  /** Every counted symbol, and no other, has a frequency. */
  ghost predicate Faithful(raw: seq<nat>, tab: RansTable)
  {
    |raw| == |tab.freq| && forall i :: 0 <= i < |raw| ==> (raw[i] > 0 <==> tab.freq[i] > 0)
  }

  lemma {:induction false} SumAtLeast(f: seq<nat>, i: nat)
    requires i < |f|
    ensures f[i] <= Sum(f)
  {
    SumPart(f, i);
  }

  lemma CorrectedSum(f: seq<nat>)
    requires |f| >= 1
    ensures var l := Largest(f, |f|);
            if Sum(f) - PROB_SCALE < f[l] then Sum(Corrected(f)) == PROB_SCALE && Corrected(f)[l] > 0
            else Sum(Corrected(f)) != PROB_SCALE || Corrected(f)[l] == 0
  {
    hide Sum, Largest;
    var l := Largest(f, |f|);
    var v := f[l] + PROB_SCALE - Sum(f);
    SumAtLeast(f, l);
    SumUpdate(f, l, v % 65536);
    Wrapped(v);
  }

  lemma Wrapped(v: int)
    ensures 0 <= v < 65536 ==> v % 65536 == v
    ensures v < 0 ==> v % 65536 != v
  {
  }

  lemma {:induction false} SomethingCounted(f: seq<nat>)
    requires Sum(f) > 0
    ensures exists i :: 0 <= i < |f| && f[i] > 0
  {
    if f[|f| - 1] == 0 {
      SomethingCounted(f[..|f| - 1]);
      var i :| 0 <= i < |f| - 1 && f[..|f| - 1][i] > 0;
      assert f[i] > 0;
    }
  }

  lemma ScaledUsed(raw: seq<nat>, total: nat)
    requires total > 0
    ensures forall i :: 0 <= i < |raw| ==> (raw[i] > 0 <==> Scaled(raw, total)[i] > 0)
  {
  }

  lemma LargestUsed(raw: seq<nat>, f: seq<nat>)
    requires |raw| == |f| == MAX_SYMS && Sum(raw) > 0
    requires forall i :: 0 <= i < |raw| ==> (raw[i] > 0 <==> f[i] > 0)
    ensures f[Largest(f, MAX_SYMS)] > 0
  {
    SomethingCounted(raw);
  }

  /** Normalisation gives a usable table exactly when the largest frequency can absorb the clamping. */
  lemma NormalisedFair(raw: seq<nat>)
    requires |raw| == MAX_SYMS && Sum(raw) > 0
    ensures Correctable(raw) <==> Fair(Normalised(raw)) && Faithful(raw, Normalised(raw))
  {
    hide Scaled, RunningSums, Sum;
    var f := Scaled(raw, Sum(raw));
    var g := Corrected(f);
    ScaledUsed(raw, Sum(raw));
    LargestUsed(raw, f);
    CorrectedSum(f);
    if Correctable(raw) {
      RunningSumsAre(g, MAX_SYMS);
    }
  }

  // ----- when normalisation is safe, and when it is not -----

  function ClampedCount(raw: seq<nat>, total: nat): nat
    requires total > 0
  {
    if raw == [] then 0
    else ClampedCount(raw[..|raw| - 1], total) + if raw[|raw| - 1] > 0 && raw[|raw| - 1] * PROB_SCALE / total == 0 then 1 else 0
  }

  /** A frequency is the share of the scale rounded down, or 1 for a share below 1. */
  ghost predicate ShareOf(freq: nat, count: nat, total: nat)
  {
    if count == 0 then freq == 0
    else if count * PROB_SCALE < total then freq == 1
    else freq * total <= count * PROB_SCALE < (freq + 1) * total
  }

  lemma ScaledOneShare(count: nat, total: nat)
    requires total > 0
    ensures ShareOf(ScaledOne(count, total), count, total)
  {
    RoundedDown(count * PROB_SCALE, total);
  }

  lemma RoundedDown(n: nat, total: nat)
    requires total > 0
    ensures n / total * total <= n < (n / total + 1) * total && (n < total <==> n / total == 0)
  {
    Quotient(n, n / total, n % total, total);
  }

  lemma Quotient(n: nat, q: nat, r: nat, total: nat)
    requires n == q * total + r && r < total
    ensures q * total <= n < (q + 1) * total && (n < total <==> q == 0)
  {
    if q > 0 {
      assert q * total >= total;
    }
  }

  /** Every frequency is the symbol's share, but for the one that evens out the sum, and this one had the largest share. */
  lemma NormalisedShares(raw: seq<nat>) returns (l: nat)
    requires |raw| == MAX_SYMS && Sum(raw) > 0
    ensures l < MAX_SYMS && forall i :: 0 <= i < MAX_SYMS && i != l ==> ShareOf(Normalised(raw).freq[i], raw[i], Sum(raw))
    ensures forall i :: 0 <= i < MAX_SYMS ==> Scaled(raw, Sum(raw))[i] <= Scaled(raw, Sum(raw))[l]
    ensures forall i :: 0 <= i < l ==> Scaled(raw, Sum(raw))[i] < Scaled(raw, Sum(raw))[l]
  {
    hide ShareOf, ScaledOne;
    var total := Sum(raw);
    var f := Scaled(raw, total);
    l := Largest(f, MAX_SYMS);
    FirstLargest(f, MAX_SYMS);
    forall i | 0 <= i < MAX_SYMS && i != l ensures ShareOf(Normalised(raw).freq[i], raw[i], total) {
      ScaledOneShare(raw[i], total);
    }
  }

  lemma {:induction false} FirstLargest(f: seq<nat>, n: nat)
    requires 1 <= n <= |f|
    ensures forall i :: 0 <= i < Largest(f, n) ==> f[i] < f[Largest(f, n)]
  {
    if n > 1 {
      FirstLargest(f, n - 1);
    }
  }

  lemma ScaledPrefix(raw: seq<nat>, total: nat)
    requires total > 0 && raw != []
    ensures Scaled(raw, total)[..|raw| - 1] == Scaled(raw[..|raw| - 1], total)
  {
  }

  lemma ScaledOneBound(count: nat, total: nat)
    requires total > 0
    ensures ScaledOne(count, total) * total
            <= count * PROB_SCALE + if count > 0 && count * PROB_SCALE / total == 0 then total else 0
  {
    var p := count * PROB_SCALE;
    assert p == (p / total) * total + p % total;
  }

  /** Scaling overshoots the scale by at most one per clamped symbol. */
  lemma {:induction false} ScaledSum(raw: seq<nat>, total: nat)
    requires total > 0
    ensures Sum(Scaled(raw, total)) * total <= Sum(raw) * PROB_SCALE + ClampedCount(raw, total) * total
  {
    if raw != [] {
      var n := |raw| - 1;
      ScaledSum(raw[..n], total);
      ScaledPrefix(raw, total);
      ScaledOneBound(raw[n], total);
      hide ScaledOne;
      MulAddLeft(Sum(Scaled(raw[..n], total)), ScaledOne(raw[n], total), total);
      MulAddLeft(ClampedCount(raw[..n], total), 1, total);
    }
  }

  lemma {:induction false} ClampedAtMost(raw: seq<nat>, total: nat)
    requires total > 0
    ensures ClampedCount(raw, total) <= UsedCount(raw)
  {
    if raw != [] {
      ClampedAtMost(raw[..|raw| - 1], total);
    }
  }

  /** Up to 126 different symbols always normalise well. */
  lemma FewSymbolsCorrectable(raw: seq<nat>)
    requires |raw| == MAX_SYMS && 0 < Sum(raw) && UsedCount(raw) <= 126
    ensures Correctable(raw)
  {
    hide Sum, UsedCount, Scaled, ClampedCount, ScaledOne;
    var total := Sum(raw);
    var f := Scaled(raw, total);
    var top := f[Largest(f, MAX_SYMS)];
    ScaledSum(raw, total);
    Overshoot(Sum(f), ClampedCount(raw, total), total);
    ScaledUsed(raw, total);
    LargestUsed(raw, f);
    assert forall i :: 0 <= i < |raw| ==> f[i] == ScaledOne(raw[i], total) <= top by {
      ScaledAt(raw, total);
    }
    ShareBound(raw, total, top);
    ClampedAtMost(raw, total);
    SharesAddUp(UsedCount(raw), ClampedCount(raw, total), top, total);
  }

  lemma ScaledAt(raw: seq<nat>, total: nat)
    requires total > 0
    ensures forall i :: 0 <= i < |raw| ==> Scaled(raw, total)[i] == ScaledOne(raw[i], total)
  {
  }

  /** Clamped symbols have less than one share of the scale, the others less than top + 1. */
  lemma {:induction false} ShareBound(raw: seq<nat>, total: nat, top: nat)
    requires total > 0 && forall i :: 0 <= i < |raw| ==> ScaledOne(raw[i], total) <= top
    ensures Sum(raw) * PROB_SCALE + ClampedCount(raw, total) * ((top + 1) * total)
            <= UsedCount(raw) * ((top + 1) * total) + ClampedCount(raw, total) * total
  {
    if raw != [] {
      var n := |raw| - 1;
      ShareBound(raw[..n], total, top);
      OneShare(raw[n], total, top);
      hide ScaledOne;
      var clamped := raw[n] > 0 && raw[n] * PROB_SCALE / total == 0;
      ShareStep(Sum(raw[..n]), raw[n], UsedCount(raw[..n]), ClampedCount(raw[..n], total), (top + 1) * total, total, clamped);
    }
  }

  lemma ShareStep(sum: int, m: int, u: int, c: int, q: int, total: int, clamped: bool)
    requires sum * PROB_SCALE + c * q <= u * q + c * total
    requires m >= 0 && m * PROB_SCALE <= if m == 0 then 0 else if clamped then total else q
    requires clamped ==> m > 0
    ensures var c', u' := c + (if clamped then 1 else 0), u + if m > 0 then 1 else 0;
            (sum + m) * PROB_SCALE + c' * q <= u' * q + c' * total
  {
    MulAddLeft(c, 1, q);
    MulAddLeft(u, 1, q);
    MulAddLeft(c, 1, total);
  }

  lemma OneShare(count: nat, total: nat, top: nat)
    requires total > 0 && ScaledOne(count, total) <= top
    ensures count * PROB_SCALE <= if count == 0 then 0 else if count * PROB_SCALE / total == 0 then total else (top + 1) * total
  {
    var p := count * PROB_SCALE;
    var d := p / total;
    assert p < d * total + total;
    if count > 0 && d > 0 {
      MulLe(d, top, total);
      MulAddLeft(top, 1, total);
    }
  }

  lemma SharesAddUp(used: nat, clamped: nat, top: nat, total: nat)
    requires total > 0 && clamped <= used <= 126
    requires total * PROB_SCALE + clamped * ((top + 1) * total) <= used * ((top + 1) * total) + clamped * total
    ensures clamped < top
  {
    var q := (top + 1) * total;
    if top <= clamped {
      MulLe(top + 1, clamped + 1, total);
      ScaleLe(used - clamped, 126 - clamped, q, (clamped + 1) * total);
      MulAddLeft(used - clamped, clamped, q);
      Regrouped(126 - clamped, clamped, total);
      Parabola(clamped);
      MulLe((126 - clamped) * (clamped + 1) + clamped + 1, PROB_SCALE, total);
      MulAddLeft((126 - clamped) * (clamped + 1) + clamped, 1, total);
    }
  }

  lemma ScaleLe(a: int, b: int, x: int, y: int)
    requires 0 <= a <= b && 0 <= x <= y
    ensures a * x <= b * y
  {
    MulLe(a, b, x);
    MulLe(x, y, b);
  }

  lemma Regrouped(a: int, c: int, total: int)
    ensures a * ((c + 1) * total) + c * total == (a * (c + 1) + c) * total
  {
    MulAddLeft(a * (c + 1), c, total);
    assert a * ((c + 1) * total) == (a * (c + 1)) * total;
  }

  lemma Parabola(c: int)
    ensures (126 - c) * (c + 1) + c < PROB_SCALE
  {
    assert (126 - c) * (c + 1) + c == 4095 - (c - 63) * (c - 63);
    assert (c - 63) * (c - 63) >= 0;
  }

  /** A block of at most 4096 symbols has no count small enough to be clamped. */
  lemma ShortBlockCorrectable(raw: seq<nat>)
    requires |raw| == MAX_SYMS && 0 < Sum(raw) <= PROB_SCALE
    ensures Correctable(raw)
  {
    hide Sum, Scaled;
    var total := Sum(raw);
    var f := Scaled(raw, total);
    NothingClamped(raw, total);
    ScaledSum(raw, total);
    Overshoot(Sum(f), 0, total);
    ScaledUsed(raw, total);
    LargestUsed(raw, f);
  }

  lemma {:induction false} NothingClamped(raw: seq<nat>, total: nat)
    requires 0 < total <= PROB_SCALE
    ensures ClampedCount(raw, total) == 0
  {
    if raw != [] {
      var m := raw[|raw| - 1];
      NothingClamped(raw[..|raw| - 1], total);
      if m > 0 {
        MulLe(1, m, PROB_SCALE);
        DivAtLeast(m * PROB_SCALE, 1, total);
      }
    }
  }

  lemma DivAtLeast(a: int, q: int, d: int)
    requires d > 0 && q * d <= a
    ensures a / d >= q
  {
    if a / d < q {
      MulLe(a / d + 1, q, d);
      MulAddLeft(a / d, 1, d);
    }
  }

  lemma Overshoot(sum: int, clamped: int, total: int)
    requires total > 0 && sum * total <= total * PROB_SCALE + clamped * total
    ensures sum <= PROB_SCALE + clamped
  {
    MulAddLeft(PROB_SCALE, clamped, total);
    if sum > PROB_SCALE + clamped {
      MulLe(PROB_SCALE + clamped + 1, sum, total);
      MulAddLeft(PROB_SCALE + clamped, 1, total);
    }
  }

  /**
    * Otherwise the largest count's frequency wraps beyond twelve bits, or it comes out as zero in a table that shares out
    * the scale without it.
    */
  lemma NotCorrectable(raw: seq<nat>) returns (lost: nat)
    requires |raw| == MAX_SYMS && Sum(raw) > 0 && !Correctable(raw)
    ensures lost < MAX_SYMS && raw[lost] > 0
    ensures Normalised(raw).freq[lost] >= 4096 || (Normalised(raw).freq[lost] == 0 && Fair(Normalised(raw)))
  {
    hide Sum, UsedCount, Scaled, ClampedCount, RunningSums;
    var total := Sum(raw);
    var f := Scaled(raw, total);
    lost := Largest(f, MAX_SYMS);
    ScaledUsed(raw, total);
    LargestUsed(raw, f);
    ScaledSum(raw, total);
    Overshoot(Sum(f), ClampedCount(raw, total), total);
    ClampedAtMost(raw, total);
    UsedAtMost(raw);
    var v := f[lost] + PROB_SCALE - Sum(f);
    assert -344 <= v <= 0;
    WrapsUp(v);
    SumUpdate(f, lost, v % 65536);
    if v == 0 {
      RunningSumsAre(Corrected(f), MAX_SYMS);
    }
  }

  lemma WrapsUp(v: int)
    requires -344 <= v <= 0
    ensures v % 65536 == if v == 0 then 0 else 65536 + v
  {
  }

  // ----- building the table -----

  /** The normalised table, built in place. */
  method BuildTable(raw: seq<nat>) returns (tab: RansTable)
    requires |raw| == MAX_SYMS
    ensures tab == Normalised(raw)
  {
    hide ScaledOne, Sum;
    var total := 0;
    SumNothing(raw);
    for i := 0 to MAX_SYMS
      invariant total == Sum(raw[..i])
    {
      SumPart(raw, i);
      total := total + raw[i];
    }
    assert raw[..MAX_SYMS] == raw;
    if total == 0 {
      return RansTable(seq(MAX_SYMS, _ => 0), seq(MAX_SYMS, _ => 0));
    }
    var freq := [];
    var shared := 0;
    for i := 0 to MAX_SYMS
      invariant freq == Scaled(raw[..i], total) && shared == Sum(freq)
    {
      assert raw[..i + 1][..i] == raw[..i];
      ScaledPrefix(raw[..i + 1], total);
      var f := ScaledOne(raw[i], total);
      SumLast(freq, f);
      freq := freq + [f];
      shared := shared + f;
    }
    assert freq == Scaled(raw, total);
    freq := Adjust(freq, shared);
    var cum := [0];
    for i := 1 to MAX_SYMS
      invariant cum == RunningSums(freq, i)
    {
      cum := cum + [(cum[i - 1] + freq[i - 1]) % 65536];
    }
    tab := RansTable(freq, cum);
  }

  lemma SumNothing(f: seq<nat>)
    ensures Sum(f[..0]) == 0 && Scaled(f[..0], 1) == []
  {
  }

  lemma SumLast(f: seq<nat>, v: nat)
    ensures Sum(f + [v]) == Sum(f) + v
  {
    assert (f + [v])[..|f|] == f;
  }

  method Adjust(freq0: seq<nat>, shared: nat) returns (freq: seq<nat>)
    requires |freq0| == MAX_SYMS && shared == Sum(freq0)
    ensures freq == Corrected(freq0)
  {
    hide Sum;
    freq := freq0;
    if shared != PROB_SCALE {
      var largest := 0;
      for i := 1 to MAX_SYMS
        invariant largest == Largest(freq0, i)
      {
        if freq[i] > freq[largest] {
          largest := i;
        }
      }
      var diff := PROB_SCALE - shared;
      freq := freq[largest := (freq[largest] + diff) % 65536];
    }
  }

  /** A table that already shares out the scale normalises to itself. */
  lemma FairAgain(tab: RansTable)
    requires Fair(tab)
    ensures Normalised(tab.freq) == tab
  {
    hide Sum, RunningSums;
    var f := Scaled(tab.freq, PROB_SCALE);
    forall i | 0 <= i < MAX_SYMS ensures f[i] == tab.freq[i] {
      DivModUnique(tab.freq[i], PROB_SCALE, 0);
    }
    assert f == tab.freq;
    RunningSumsAre(tab.freq, MAX_SYMS);
    assert RunningSums(tab.freq, MAX_SYMS) == tab.cum;
  }

  /** With two symbols in use every frequency fits in 12 bits. */
  lemma TwelveBits(tab: RansTable, a: nat, b: nat)
    requires Fair(tab) && a < b < MAX_SYMS && tab.freq[a] > 0 && tab.freq[b] > 0
    ensures forall i :: 0 <= i < MAX_SYMS ==> tab.freq[i] < 4096
  {
    forall i | 0 <= i < MAX_SYMS ensures tab.freq[i] < 4096 {
      var j := if i == a then b else a;
      SumUpdate(tab.freq, i, 0);
      SumAtLeast(tab.freq[i := 0], j);
    }
  }
}
