/** Cutting code lengths at a maximum and repairing the Kraft sum. */
module TreeRepair {
  import opened BitStrings
  import opened LengthGroups
  import opened Tally

  // ----- Kraft sums over a range of lengths -----

  /** The Kraft sum, in units of 2^-max, of the symbols whose length lies in lo..hi. */
  function Span(s: seq<nat>, max: nat, lo: nat, hi: nat): nat
    requires hi <= max
  {
    if s == [] then 0 else Span(s[..|s| - 1], max, lo, hi) + Slots(s[|s| - 1], max, lo, hi)
  }

  function Slots(l: nat, max: nat, lo: nat, hi: nat): nat
    requires hi <= max
  {
    if 1 <= l && lo <= l <= hi then Pow2(max - l) else 0
  }

  lemma {:induction false} SpanUpdate(s: seq<nat>, i: nat, v: nat, max: nat, lo: nat, hi: nat)
    requires hi <= max && i < |s|
    ensures Span(s[i := v], max, lo, hi) == Span(s, max, lo, hi) - Slots(s[i], max, lo, hi) + Slots(v, max, lo, hi)
  {
    var n := |s| - 1;
    if i == n {
      assert s[i := v][..n] == s[..n];
    } else {
      assert s[i := v][..n] == s[..n][i := v];
      SpanUpdate(s[..n], i, v, max, lo, hi);
    }
  }

  lemma {:induction false} SpanSplit(s: seq<nat>, max: nat, lo: nat, mid: nat, hi: nat)
    requires lo <= mid + 1 <= hi + 1 && hi <= max
    ensures Span(s, max, lo, hi) == Span(s, max, lo, mid) + Span(s, max, mid + 1, hi)
  {
    if s != [] {
      SpanSplit(s[..|s| - 1], max, lo, mid, hi);
    }
  }

  lemma {:induction false} SpanEmpty(s: seq<nat>, max: nat, lo: nat, hi: nat)
    requires hi <= max && forall i :: 0 <= i < |s| ==> s[i] == 0 || s[i] < lo || hi < s[i]
    ensures Span(s, max, lo, hi) == 0
  {
    if s != [] {
      SpanEmpty(s[..|s| - 1], max, lo, hi);
    }
  }

  /** Lengths up to hi only fill multiples of 2^(max - hi). */
  lemma {:induction false} SpanScale(s: seq<nat>, max: nat, lo: nat, hi: nat)
    requires hi <= max
    ensures Span(s, max, lo, hi) == Span(s, hi, lo, hi) * Pow2(max - hi)
  {
    if s != [] {
      var l := s[|s| - 1];
      SpanScale(s[..|s| - 1], max, lo, hi);
      MulAddLeft(Span(s[..|s| - 1], hi, lo, hi), Slots(l, hi, lo, hi), Pow2(max - hi));
      if 1 <= l && lo <= l <= hi {
        Pow2Add(hi - l, max - hi);
      }
    }
  }

  lemma {:induction false} SpanBound(s: seq<nat>, max: nat, least: nat)
    requires 1 <= least <= max && forall i :: 0 <= i < |s| ==> s[i] == 0 || least <= s[i]
    ensures Span(s, max, 1, max) <= UsedCount(s) * Pow2(max - least)
  {
    if s != [] {
      var l, p := s[|s| - 1], Pow2(max - least);
      SpanBound(s[..|s| - 1], max, least);
      MulAddLeft(UsedCount(s[..|s| - 1]), 1, p);
      if 1 <= l <= max {
        Pow2Monotone(max - l, max - least);
      }
    }
  }

  lemma {:induction false} SpanWiden(s: seq<nat>, max: nat, hi: nat, hi': nat)
    requires hi <= hi' <= max
    ensures Span(s, max, 1, hi) <= Span(s, max, 1, hi')
  {
    SpanSplit(s, max, 1, hi, hi');
  }

  // ----- symbols grouped by length, in ascending order -----

  /** What scl and length_count record about the lengths. */
  ghost predicate Groups(s: seq<nat>, scl: seq<seq<nat>>, cnt: seq<nat>, max: nat)
  {
    && |scl| == |cnt| == max + 2 && cnt[0] == 0
    && (forall i :: 0 <= i < |s| ==> s[i] <= max)
    && (forall l :: 1 <= l <= max ==> Group(s, scl[l], l) && cnt[l] == |scl[l]|)
  }

  /** Inserts a symbol before the first larger one. */
  method InsertSorted(list: seq<nat>, ch: nat) returns (r: seq<nat>)
    requires Ascending(list) && ch !in list
    ensures Ascending(r) && |r| == |list| + 1 && forall i :: i in r <==> i == ch || i in list
  {
    var q := 0;
    while q < |list| && list[q] < ch
      invariant q <= |list| && forall k :: 0 <= k < q ==> list[k] < ch
    {
      q := q + 1;
    }
    r := list[..q] + [ch] + list[q..];
    forall k | q <= k < |list| ensures ch < list[k] {
      assert list[q] in list;
    }
    Spliced(list, q, ch);
  }

  lemma Spliced(list: seq<nat>, q: nat, ch: nat)
    requires q <= |list|
    ensures forall i :: i in list[..q] + [ch] + list[q..] <==> i == ch || i in list
  {
    assert list == list[..q] + list[q..];
  }

  ghost predicate Below(a: seq<nat>, b: seq<nat>)
  {
    forall x, y :: x in a && y in b ==> x < y
  }

  lemma AscendingJoin(a: seq<nat>, b: seq<nat>)
    requires Ascending(a) && Ascending(b) && Below(a, b)
    ensures Ascending(a + b)
  {
    forall i, j | 0 <= i < j < |a + b| ensures (a + b)[i] < (a + b)[j] {
      if i < |a| <= j {
        assert a[i] in a && b[j - |a|] in b;
      }
    }
  }

  lemma HeadBelow(g: seq<nat>)
    requires Ascending(g) && g != []
    ensures Ascending(g[1..]) && Below([g[0]], g[1..])
    ensures forall i :: i in g <==> i == g[0] || i in g[1..]
  {
    assert g == [g[0]] + g[1..];
  }

  /** Merges a chain into a list of other symbols; done is the part before the insertion point. */
  method MergeSorted(list: seq<nat>, chain: seq<nat>) returns (r: seq<nat>)
    requires Ascending(list) && Ascending(chain) && forall i :: i in list ==> i !in chain
    ensures Ascending(r) && |r| == |list| + |chain| && forall i :: i in r <==> i in list || i in chain
  {
    var done: seq<nat> := [];
    var rest, cp := list, chain;
    assert Mixing(done, rest, cp, list, chain);
    hide *;
    while rest != [] && cp != []
      invariant Mixing(done, rest, cp, list, chain)
      decreases |rest| + |cp|
    {
      if rest[0] > cp[0] {
        SwapMixing(done, rest, cp, list, chain);
        TakeHead(done, cp, rest, list, chain);
        done, cp := done + [cp[0]], cp[1..];
        SwapMixing(done, cp, rest, list, chain);
      } else {
        TakeHead(done, rest, cp, list, chain);
        done, rest := done + [rest[0]], rest[1..];
      }
    }
    r := if cp != [] then done + cp else done + rest;
    AllMixed(done, rest, cp, list, chain);
  }

  /** While merging: done comes before what is left of the two. */
  ghost predicate Mixing(done: seq<nat>, a: seq<nat>, b: seq<nat>, list: seq<nat>, chain: seq<nat>)
  {
    && Ascending(done) && Ascending(a) && Ascending(b) && Below(done, a) && Below(done, b)
    && (forall i :: i in a ==> i !in b) && |done| + |a| + |b| == |list| + |chain|
    && forall i :: (i in done || i in a || i in b) <==> (i in list || i in chain)
  }

  lemma SwapMixing(done: seq<nat>, a: seq<nat>, b: seq<nat>, list: seq<nat>, chain: seq<nat>)
    requires Mixing(done, a, b, list, chain)
    ensures Mixing(done, b, a, list, chain)
  {
    hide Ascending, Below;
  }

  lemma TakeHead(done: seq<nat>, a: seq<nat>, b: seq<nat>, list: seq<nat>, chain: seq<nat>)
    requires Mixing(done, a, b, list, chain) && a != [] && b != [] && a[0] <= b[0]
    ensures Mixing(done + [a[0]], a[1..], b, list, chain)
  {
    HeadBelow(a);
    HeadBelow(b);
    assert a[0] in a && b[0] in b;
    AscendingJoin(done, [a[0]]);
  }

  lemma AllMixed(done: seq<nat>, a: seq<nat>, b: seq<nat>, list: seq<nat>, chain: seq<nat>)
    requires Mixing(done, a, b, list, chain) && (a == [] || b == [])
    ensures var r := if b != [] then done + b else done + a;
            Ascending(r) && |r| == |list| + |chain| && forall i :: i in r <==> i in list || i in chain
  {
    AscendingJoin(done, if b != [] then b else a);
  }

  // ----- one symbol changes its length -----

  ghost predicate SameUse(s: seq<nat>, s': seq<nat>)
  {
    |s| == |s'| && UsedCount(s) == UsedCount(s') && forall i :: 0 <= i < |s| ==> (s[i] == 0 <==> s'[i] == 0)
  }

  lemma LengthenSpan(s: seq<nat>, i: nat, max: nat)
    requires i < |s| && 1 <= s[i] < max
    ensures var s', l := s[i := s[i] + 1], s[i];
            && SameUse(s, s')
            && Span(s', max, 1, max) == Span(s, max, 1, max) - Pow2(max - l - 1)
            && (forall hi: nat :: hi <= max ==> Span(s', max, 1, hi) <= Span(s, max, 1, hi))
            && (forall lo: nat :: l + 1 < lo ==> Span(s', max, lo, max) == Span(s, max, lo, max))
  {
    var l := s[i];
    UsedUpdate(s, i, l + 1);
    forall lo: nat, hi: nat | hi <= max
      ensures Span(s[i := l + 1], max, lo, hi) == Span(s, max, lo, hi) - Slots(l, max, lo, hi) + Slots(l + 1, max, lo, hi)
    {
      SpanUpdate(s, i, l + 1, max, lo, hi);
    }
  }

  lemma ShortenSpan(s: seq<nat>, i: nat, max: nat)
    requires i < |s| && 2 <= s[i] <= max
    ensures var s', l := s[i := s[i] - 1], s[i];
            && SameUse(s, s')
            && Span(s', max, 1, max) == Span(s, max, 1, max) + Pow2(max - l)
            && (forall hi: nat :: hi < l - 1 ==> Span(s', max, 1, hi) == Span(s, max, 1, hi))
            && Span(s', max, l, max) == Span(s, max, l, max) - Pow2(max - l)
  {
    var l := s[i];
    UsedUpdate(s, i, l - 1);
    forall lo: nat, hi: nat | hi <= max
      ensures Span(s[i := l - 1], max, lo, hi) == Span(s, max, lo, hi) - Slots(l, max, lo, hi) + Slots(l - 1, max, lo, hi)
    {
      SpanUpdate(s, i, l - 1, max, lo, hi);
    }
  }

  /** Moving symbols between two groups leaves the other groups alone. */
  lemma Regroup(s: seq<nat>, s': seq<nat>, scl: seq<seq<nat>>, scl': seq<seq<nat>>, cnt: seq<nat>, cnt': seq<nat>,
                max: nat, a: nat, b: nat)
    requires Groups(s, scl, cnt, max) && 1 <= a <= max && 1 <= b <= max && a != b
    requires |s'| == |s| && |scl'| == |scl| && |cnt'| == |cnt|
    requires forall i :: 0 <= i < |s| && s'[i] != s[i] ==> s[i] == a && s'[i] == b
    requires Group(s', scl'[a], a) && cnt'[a] == |scl'[a]| && Group(s', scl'[b], b) && cnt'[b] == |scl'[b]|
    requires forall l :: 0 <= l < max + 2 && l != a && l != b ==> scl'[l] == scl[l] && cnt'[l] == cnt[l]
    ensures Groups(s', scl', cnt', max)
  {
    forall l | 1 <= l <= max ensures Group(s', scl'[l], l) && cnt'[l] == |scl'[l]| {
      if l != a && l != b {
        assert Group(s, scl[l], l);
      }
    }
  }

  lemma GroupOfLength(s: seq<nat>, scl: seq<seq<nat>>, cnt: seq<nat>, max: nat, l: nat)
    requires Groups(s, scl, cnt, max) && 1 <= l <= max
    ensures scl[l] == Members(s, l) && cnt[l] == |Members(s, l)|
  {
    GroupIs(s, scl[l], l);
  }

  lemma LengthenedIs(s: seq<nat>, j: nat)
    requires Members(s, j) != []
    ensures var x := Members(s, j)[0]; x < |s| && s[x] == j && Lengthened(s, j) == s[x := j + 1]
  {
    FirstMember(s, j);
  }

  // ----- the repair methods -----

  /** Moves the first symbol of length j to length j + 1. */
  method Lengthen(lengths: array<nat>, scl: array<seq<nat>>, cnt: array<nat>, j: nat, max: nat)
    requires 1 <= j < max && Groups(lengths[..], scl[..], cnt[..], max) && cnt[j] > 0 && lengths != cnt
    modifies lengths, scl, cnt
    ensures Groups(lengths[..], scl[..], cnt[..], max)
    ensures Members(old(lengths[..]), j) != [] && lengths[..] == Lengthened(old(lengths[..]), j)
  {
    hide Lengthened;
    var ch := scl[j][0];
    ghost var s, g, c := lengths[..], scl[..], cnt[..];
    GroupOfLength(s, g, c, max, j);
    LengthenedIs(s, j);
    assert Group(s, g[j], j) && Group(s, g[j + 1], j + 1) && ch in g[j];
    HeadBelow(g[j]);
    var inserted := InsertSorted(scl[j + 1], ch);
    scl[j] := scl[j][1..];
    scl[j + 1] := inserted;
    lengths[ch] := lengths[ch] + 1;
    cnt[j] := cnt[j] - 1;
    cnt[j + 1] := cnt[j + 1] + 1;
    Regroup(s, lengths[..], g, scl[..], c, cnt[..], max, j, j + 1);
  }

  ghost predicate Shortened(s: seq<nat>, s': seq<nat>, chain: seq<nat>, k: nat, l: nat)
    requires k <= |chain| && 1 <= l
  {
    |s'| == |s| && forall i: nat :: i < |s| ==> s'[i] == if i in chain[..k] then l - 1 else s[i]
  }

  /** The Kraft sums after the first k symbols of a chain went from length l to l - 1. */
  ghost predicate ShortenedSpans(s: seq<nat>, s': seq<nat>, k: nat, l: nat, max: nat)
    requires 1 <= l <= max
  {
    && SameUse(s, s')
    && Span(s', max, 1, max) == Span(s, max, 1, max) + k * Pow2(max - l)
    && Span(s', max, l, max) == Span(s, max, l, max) - k * Pow2(max - l)
    && (forall hi: nat :: hi < l - 1 ==> Span(s', max, 1, hi) == Span(s, max, 1, hi))
  }

  lemma ShortenNext(s: seq<nat>, s': seq<nat>, k: nat, l: nat, i: nat, max: nat)
    requires 2 <= l <= max && |s'| == |s| && i < |s| && s'[i] == l && ShortenedSpans(s, s', k, l, max)
    ensures ShortenedSpans(s, s'[i := l - 1], k + 1, l, max)
  {
    ShortenSpan(s', i, max);
    MulAddLeft(k, 1, Pow2(max - l));
  }

  lemma ChainGroups(s: seq<nat>, s': seq<nat>, g: seq<nat>, below: seq<nat>, merged: seq<nat>, count: nat, l: nat)
    requires 2 <= l && Group(s, g, l) && Group(s, below, l - 1) && count <= |g|
    requires Shortened(s, s', g[..count], count, l)
    requires Ascending(merged) && forall i :: i in merged <==> i in below || i in g[..count]
    ensures Group(s', g[count..], l) && Group(s', merged, l - 1)
  {
    assert g == g[..count] + g[count..];
    assert g[..count][..count] == g[..count];
    forall i | i in g[count..] ensures i !in g[..count] {}
  }

  method ShortenChain(lengths: array<nat>, chain: seq<nat>, ilen: nat, max: nat)
    requires 2 <= ilen <= max && Ascending(chain)
    requires forall i :: i in chain ==> i < lengths.Length && lengths[i] == ilen
    modifies lengths
    ensures Shortened(old(lengths[..]), lengths[..], chain, |chain|, ilen)
    ensures ShortenedSpans(old(lengths[..]), lengths[..], |chain|, ilen, max)
  {
    hide ShortenedSpans;
    ghost var s, shorter: nat := lengths[..], ilen - 1;
    NoneShortened(s, ilen, max);
    for k := 0 to |chain|
      invariant Shortened(s, lengths[..], chain, k, ilen) && ShortenedSpans(s, lengths[..], k, ilen, max)
    {
      ghost var s' := lengths[..];
      assert chain[k] in chain && chain[k] !in chain[..k];
      ShortenNext(s, s', k, ilen, chain[k], max);
      assert chain[..k + 1] == chain[..k] + [chain[k]];
      lengths[chain[k]] := lengths[chain[k]] - 1;
      assert lengths[..] == s'[chain[k] := shorter];
    }
  }

  lemma NoneShortened(s: seq<nat>, l: nat, max: nat)
    requires 1 <= l <= max
    ensures ShortenedSpans(s, s, 0, l, max)
  {
  }

  /** Moves the first `count` symbols of length ilen to length ilen - 1. */
  method ShortenFirst(lengths: array<nat>, scl: array<seq<nat>>, cnt: array<nat>, ilen: nat, count: nat, max: nat)
    requires 2 <= ilen <= max && Groups(lengths[..], scl[..], cnt[..], max) && count <= cnt[ilen] && lengths != cnt
    modifies lengths, scl, cnt
    ensures Groups(lengths[..], scl[..], cnt[..], max)
    ensures ShortenedSpans(old(lengths[..]), lengths[..], count, ilen, max)
    ensures cnt[ilen] == old(cnt[ilen]) - count
    ensures count <= |Members(old(lengths[..]), ilen)| && lengths[..] == ShortenedFirst(old(lengths[..]), ilen, count)
  {
    hide ShortenedSpans, Members;
    ghost var s, g, c := lengths[..], scl[..], cnt[..];
    GroupOfLength(s, g, c, max, ilen);
    assert Group(s, g[ilen], ilen) && Group(s, g[ilen - 1], ilen - 1);
    var chain := scl[ilen][..count];
    assert forall i :: i in chain ==> i in g[ilen];
    ShortenChain(lengths, chain, ilen, max);
    assert scl[..] == g && cnt[..] == c;
    var merged := MergeSorted(scl[ilen - 1], chain);
    ChainGroups(s, lengths[..], g[ilen], g[ilen - 1], merged, count, ilen);
    scl[ilen] := scl[ilen][count..];
    scl[ilen - 1] := merged;
    cnt[ilen - 1] := cnt[ilen - 1] + count;
    cnt[ilen] := cnt[ilen] - count;
    assert chain[..count] == chain;
    assert lengths[..] == ShortenedFirst(s, ilen, count);
    Regroup(s, lengths[..], g, scl[..], c, cnt[..], max, ilen, ilen - 1);
  }

  lemma NoneOfLength(s: seq<nat>, scl: seq<seq<nat>>, cnt: seq<nat>, max: nat, l: nat)
    requires Groups(s, scl, cnt, max) && 1 <= l <= max && cnt[l] == 0
    ensures forall i :: 0 <= i < |s| ==> s[i] != l
  {
    assert Group(s, scl[l], l);
    forall i | 0 <= i < |s| ensures s[i] != l {
      assert i in scl[l] <==> s[i] == l;
    }
  }

  lemma LevelDone(s: seq<nat>, scl: seq<seq<nat>>, cnt: seq<nat>, max: nat, l: nat)
    requires Groups(s, scl, cnt, max) && 1 <= l <= max && cnt[l] == 0
    ensures Span(s, max, l + 1, max) == Span(s, max, l, max)
  {
    NoneOfLength(s, scl, cnt, max, l);
    SpanSplit(s, max, l, l, max);
    SpanEmpty(s, max, l, l);
  }

  lemma TakeFrom(space: nat, count: nat, p: nat)
    requires count <= space
    ensures space * p - count * p == (space - count) * p
  {
    MulAddLeft(space - count, count, p);
  }

  lemma SameUseTransitive(a: seq<nat>, b: seq<nat>, c: seq<nat>)
    requires SameUse(a, b) && SameUse(b, c)
    ensures SameUse(a, c)
  {
  }

  /** Shortens symbols, longest levels last, until `space` slots of level ilen are filled. */
  method FillSpace(lengths: array<nat>, scl: array<seq<nat>>, cnt: array<nat>, dcode0: nat, ilen0: nat, space0: nat, max: nat)
    returns (dcode: nat)
    requires 2 <= ilen0 <= max && Groups(lengths[..], scl[..], cnt[..], max) && lengths != cnt
    requires dcode0 == Span(lengths[..], max, 1, max)
    requires Span(lengths[..], max, ilen0, max) >= space0 * Pow2(max - ilen0)
    modifies lengths, scl, cnt
    ensures Groups(lengths[..], scl[..], cnt[..], max) && SameUse(old(lengths[..]), lengths[..])
    ensures dcode == Span(lengths[..], max, 1, max) == dcode0 + space0 * Pow2(max - ilen0)
    ensures forall hi: nat :: hi < ilen0 - 1 ==> Span(lengths[..], max, 1, hi) == old(Span(lengths[..], max, 1, hi))
    ensures lengths[..] == Filled(old(lengths[..]), ilen0, space0, max)
  {
    hide Groups, Span, SameUse, Filled;
    dcode := dcode0;
    var ilen: nat, space: nat := ilen0, space0;
    ghost var need, s0 := space0 * Pow2(max - ilen0), lengths[..];
    SameUseSelf(s0);
    while space > 0
      invariant ilen0 <= ilen <= max + 1 && Groups(lengths[..], scl[..], cnt[..], max) && SameUse(s0, lengths[..])
      invariant dcode == Span(lengths[..], max, 1, max) && dcode + need == dcode0 + space0 * Pow2(max - ilen0)
      invariant if ilen <= max then need == space * Pow2(max - ilen) else need == space == 0
      invariant ilen <= max ==> Span(lengths[..], max, ilen, max) >= need
      invariant forall hi: nat :: hi < ilen0 - 1 ==> Span(lengths[..], max, 1, hi) == Span(s0, max, 1, hi)
      invariant Filled(s0, ilen0, space0, max) == Filled(lengths[..], ilen, space, max)
      decreases max + 1 - ilen
    {
      dcode, space, need := FillLevel(lengths, scl, cnt, dcode, ilen, space, need, max, s0, ilen0);
      ilen := ilen + 1;
    }
    NothingFilled(lengths[..], ilen, max);
    if ilen <= max {
      TakeFrom(space, space, Pow2(max - ilen));
    }
  }

  lemma SameUseSelf(s: seq<nat>)
    ensures SameUse(s, s)
  {
  }

  /** One level of the fill: what it does not fill is due, doubled, at the next level. */
  method FillLevel(lengths: array<nat>, scl: array<seq<nat>>, cnt: array<nat>, dcode0: nat, ilen: nat, space0: nat,
                   ghost need0: nat, max: nat, ghost s0: seq<nat>, ghost ilen0: nat)
    returns (dcode: nat, space: nat, ghost need: nat)
    requires 2 <= ilen0 <= ilen <= max && Groups(lengths[..], scl[..], cnt[..], max) && lengths != cnt
    requires dcode0 == Span(lengths[..], max, 1, max) && SameUse(s0, lengths[..])
    requires need0 == space0 * Pow2(max - ilen) && Span(lengths[..], max, ilen, max) >= need0
    requires forall hi: nat :: hi < ilen0 - 1 ==> Span(lengths[..], max, 1, hi) == Span(s0, max, 1, hi)
    modifies lengths, scl, cnt
    ensures Groups(lengths[..], scl[..], cnt[..], max) && SameUse(s0, lengths[..])
    ensures dcode == Span(lengths[..], max, 1, max) && dcode + need == dcode0 + need0
    ensures if ilen < max then need == space * Pow2(max - ilen - 1) else need == space == 0
    ensures ilen < max ==> Span(lengths[..], max, ilen + 1, max) >= need
    ensures forall hi: nat :: hi < ilen0 - 1 ==> Span(lengths[..], max, 1, hi) == Span(s0, max, 1, hi)
    ensures space0 > 0 ==> Filled(old(lengths[..]), ilen, space0, max) == Filled(lengths[..], ilen + 1, space, max)
  {
    hide Span, SameUse, Members, ShortenedFirst;
    GroupOfLength(lengths[..], scl[..], cnt[..], max, ilen);
    var count := if cnt[ilen] < space0 then cnt[ilen] else space0;
    ghost var s1 := lengths[..];
    ShortenFirst(lengths, scl, cnt, ilen, count, max);
    SameUseTransitive(s0, s1, lengths[..]);
    dcode := dcode0 + Pow2(max - ilen) * count;
    space := space0 - count;
    need := space * Pow2(max - ilen);
    TakeFrom(space0, count, Pow2(max - ilen));
    if space > 0 {
      LevelDone(lengths[..], scl[..], cnt[..], max, ilen);
      if ilen == max {
        SpanEmptyRange(lengths[..], max);
      }
    }
    space := 2 * space;
  }

  lemma SpanEmptyRange(s: seq<nat>, max: nat)
    ensures Span(s, max, max + 1, max) == 0
  {
    SpanEmpty(s, max, max + 1, max);
  }

  // ----- the lowest set bit -----

  predicate BitSet(v: nat, b: nat) { Shr(v, b) % 2 == 1 }

  /** b is the lowest set bit of v below max, or max if there is none. */
  ghost predicate LowestBit(v: nat, b: nat, max: nat)
  {
    b <= max && Low(v, b) == 0 && (b < max ==> BitSet(v, b))
  }

  lemma LowNext(v: nat, b: nat)
    requires Low(v, b) == 0 && !BitSet(v, b)
    ensures Low(v, b + 1) == 0
  {
    var p := Pow2(b);
    var q := v / p;
    assert v == q * p && q % 2 == 0;
    MulAssoc(q / 2, 2, p);
    DivModUnique(q / 2, 2 * p, 0);
  }

  /** The first set bit from a position on, or max. */
  function FirstSet(v: nat, from: nat, max: nat): (b: nat)
    requires from <= max
    ensures from <= b <= max && (b < max ==> BitSet(v, b))
    decreases max - from
  {
    if from == max || BitSet(v, from) then from else FirstSet(v, from + 1, max)
  }

  method NextBit(dcode: nat, from: nat, max: nat) returns (bit: nat)
    requires from <= max && Low(dcode, from) == 0
    ensures from <= bit && LowestBit(dcode, bit, max) && bit == FirstSet(dcode, from, max)
  {
    bit := from;
    while bit < max && !BitSet(dcode, bit)
      invariant from <= bit <= max && Low(dcode, bit) == 0 && FirstSet(dcode, from, max) == FirstSet(dcode, bit, max)
    {
      LowNext(dcode, bit);
      bit := bit + 1;
    }
  }

  /** Clearing the lowest set bit of an overfull sum keeps it at least full. */
  lemma ClearLowest(d: nat, b: nat, max: nat)
    requires b < max && LowestBit(d, b, max) && Pow2(max) <= d
    ensures Pow2(max) + Pow2(b) <= d && Low(d - Pow2(b), b + 1) == 0 && Low(d - Pow2(b), b) == 0
  {
    OddMultiple(d, b, max);
    hide Pow2, LowestBit;
    Pow2Halves(b, max);
    ClearOdd(d, d / Pow2(b), Pow2(max - b - 1), Pow2(b));
  }

  lemma OddMultiple(d: nat, bit: nat, max: nat)
    requires LowestBit(d, bit, max) && bit < max
    ensures d == d / Pow2(bit) * Pow2(bit) && d / Pow2(bit) % 2 == 1
  {
    hide Pow2;
  }

  lemma Pow2Halves(b: nat, max: nat)
    requires b < max
    ensures (2 * Pow2(max - b - 1)) * Pow2(b) == Pow2(max) && Pow2(b + 1) == 2 * Pow2(b)
  {
    Pow2Add(max - b, b);
  }

  lemma ClearOdd(d: int, q: int, r: int, p: int)
    requires p > 0 && d == q * p && q % 2 == 1 && (2 * r) * p <= d
    ensures (2 * r) * p + p <= d && (d - p) % (2 * p) == 0 && (d - p) % p == 0
  {
    FactorAtLeast(2 * r, q, p);
    MulLe(2 * r + 1, q, p);
    MulAddLeft(2 * r, 1, p);
    MulAddLeft(q, -1, p);
    EvenMultiple(d - p, (q - 1) / 2, p);
  }

  lemma EvenMultiple(x: int, h: int, p: int)
    requires p > 0 && x == (2 * h) * p
    ensures x % (2 * p) == 0 && x % p == 0
  {
    assert x == h * (2 * p);
    DivModUnique(h, 2 * p, 0);
    DivModUnique(2 * h, p, 0);
  }

  lemma FactorAtLeast(a: int, b: int, p: int)
    requires p > 0 && a * p <= b * p
    ensures a <= b
  {
    MultipleBound(a - b, p);
    MulAddLeft(a, -b, p);
    assert (-b) * p == -(b * p);
  }

  /** A sum with no set bit below max, at least 2^max and less than twice that, is 2^max. */
  lemma ExactlyFull(d: nat, max: nat)
    requires Low(d, max) == 0 && Pow2(max) <= d < 2 * Pow2(max)
    ensures d == Pow2(max)
  {
    var p, q := Pow2(max), d / Pow2(max);
    assert d == q * p;
    FactorAtLeast(1, q, p);
    DivLess(d, 2, p);
  }

  // ----- one pass -----

  /** The longest used length below ilen, or 0 if there is none. */
  method LongestBelow(cnt: seq<nat>, ilen: nat) returns (j: nat)
    requires 1 <= ilen <= |cnt| && cnt[0] == 0
    ensures j < ilen && (j == 0 || cnt[j] > 0) && forall l :: j < l < ilen ==> cnt[l] == 0
  {
    j := ilen;
    while j > 0 && cnt[j - 1] == 0
      invariant j <= ilen && forall l :: j <= l < ilen ==> cnt[l] == 0
    {
      j := j - 1;
    }
    if j > 0 {
      j := j - 1;
    }
  }

  lemma {:induction false} LongestBelowIs(s: seq<nat>, scl: seq<seq<nat>>, cnt: seq<nat>, max: nat, j: nat, ilen: nat)
    requires Groups(s, scl, cnt, max) && j < ilen <= max && (j == 0 || cnt[j] > 0) && forall l :: j < l < ilen ==> cnt[l] == 0
    ensures LongestUsed(s, ilen) == j
  {
    hide Members;
    if ilen > 1 {
      GroupOfLength(s, scl, cnt, max, ilen - 1);
      if j < ilen - 1 {
        LongestBelowIs(s, scl, cnt, max, j, ilen - 1);
      }
    }
  }

  lemma NoneBetween(s: seq<nat>, scl: seq<seq<nat>>, cnt: seq<nat>, max: nat, j: nat, ilen: nat)
    requires Groups(s, scl, cnt, max) && j < ilen <= max && forall l :: j < l < ilen ==> cnt[l] == 0
    ensures Span(s, max, 1, ilen - 1) == Span(s, max, 1, j)
    ensures forall i :: 0 <= i < |s| && j < s[i] ==> ilen <= s[i]
  {
    forall i | 0 <= i < |s| && j < s[i] ensures ilen <= s[i] {
      if s[i] < ilen {
        NoneOfLength(s, scl, cnt, max, s[i]);
      }
    }
    SpanSplit(s, max, 1, j, ilen - 1);
    SpanEmpty(s, max, j + 1, ilen - 1);
  }

  /** The long symbols hold enough slots to fill what lengthening one symbol of length j freed. */
  lemma EnoughLong(s: seq<nat>, max: nat, j: nat, ilen: nat)
    requires 1 <= j < ilen <= max && Span(s, max, 1, ilen - 1) == Span(s, max, 1, j) < Pow2(max)
    requires Pow2(max) <= Span(s, max, 1, max)
    ensures Span(s, max, ilen, max) >= Pow2(max - j)
  {
    var p := Pow2(max - j);
    SpanSplit(s, max, 1, ilen - 1, max);
    SpanScale(s, max, 1, j);
    Pow2Add(j, max - j);
    var u := Span(s, j, 1, j);
    DivLess(u * p, Pow2(j), p);
    DivModUnique(u, p, 0);
    MulLe(u + 1, Pow2(j), p);
    MulAddLeft(u, 1, p);
  }

  ghost predicate Stuck(s: seq<nat>, ilen: nat)
  {
    forall i :: 0 <= i < |s| ==> s[i] == 0 || ilen <= s[i]
  }

  ghost predicate PassReady(s: seq<nat>, dcode: nat, bit: nat, max: nat)
  {
    && bit < max && LowestBit(dcode, bit, max)
    && dcode == Span(s, max, 1, max) && Pow2(max) <= dcode
    && Span(s, max, 1, max - bit - 1) < Pow2(max)
  }

  /** What one pass does to the lengths: the sum loses exactly its lowest set bit. */
  ghost predicate PassDone(s: seq<nat>, s': seq<nat>, bit: nat, max: nat)
    requires bit < max
  {
    && SameUse(s, s')
    && Span(s', max, 1, max) == Span(s, max, 1, max) - Pow2(bit)
    && forall hi: nat :: hi + 2 <= max - bit ==> LowKept(s, s', bit, max, hi)
  }

  /**
    * What a pass does to the sum over short lengths: nothing, unless only lengths up to hi lie below the level of the
    * bit. Then one of them gives way: a shorter one loses at most half of the sum, one of length hi loses its slots.
    */
  ghost predicate LowKept(s: seq<nat>, s': seq<nat>, bit: nat, max: nat, hi: nat)
    requires hi + 2 <= max - bit
  {
    var x, y := Span(s, max, 1, hi), Span(s', max, 1, hi);
    && y <= x
    && (y == x || (x == Span(s, max, 1, max - bit - 1) && (2 * y >= x || y == x - Pow2(max - hi))))
  }

  lemma {:induction false} SpanAtLeast(s: seq<nat>, i: nat, max: nat, hi: nat)
    requires i < |s| && 1 <= s[i] <= hi <= max
    ensures Span(s, max, 1, hi) >= Pow2(max - s[i])
  {
    if i < |s| - 1 {
      SpanAtLeast(s[..|s| - 1], i, max, hi);
    }
  }

  lemma LengthenLow(s: seq<nat>, i: nat, max: nat, bit: nat, hi: nat)
    requires i < |s| && 1 <= s[i] < max - bit && hi + 2 <= max - bit
    requires Span(s, max, 1, max - bit - 1) == Span(s, max, 1, s[i])
    ensures LowKept(s, s[i := s[i] + 1], bit, max, hi)
  {
    hide Span;
    var j := s[i];
    SpanUpdate(s, i, j + 1, max, 1, hi);
    if j <= hi {
      SpanAtLeast(s, i, max, hi);
      SpanWiden(s, max, j, hi);
      SpanWiden(s, max, hi, max - bit - 1);
    }
  }

  lemma LowKeptSame(s: seq<nat>, s1: seq<nat>, s2: seq<nat>, bit: nat, max: nat, hi: nat)
    requires hi + 2 <= max - bit && LowKept(s, s1, bit, max, hi) && Span(s2, max, 1, hi) == Span(s1, max, 1, hi)
    ensures LowKept(s, s2, bit, max, hi)
  {
  }

  method RepairPass(lengths: array<nat>, scl: array<seq<nat>>, cnt: array<nat>, dcode0: nat, bit: nat, max: nat)
    returns (dcode: nat, ok: bool)
    requires Groups(lengths[..], scl[..], cnt[..], max) && lengths != cnt && PassReady(lengths[..], dcode0, bit, max)
    modifies lengths, scl, cnt
    ensures Groups(lengths[..], scl[..], cnt[..], max) && dcode == Span(lengths[..], max, 1, max)
    ensures ok ==> PassDone(old(lengths[..]), lengths[..], bit, max)
    ensures ok <==> !old(Stuck(lengths[..], max - bit))
    ensures ok <==> LongestUsed(old(lengths[..]), max - bit) > 0
    ensures lengths[..] == if ok then Passed(old(lengths[..]), bit, max) else old(lengths[..])
  {
    hide Groups, Span, SameUse, LowestBit, Pow2, LowKept, Members, Lengthened, Filled, LongestUsed;
    ghost var s, g := lengths[..], scl[..];
    dcode := dcode0;
    var ilen := max - bit;
    GroupsShape(s, g, cnt[..], max);
    var j := LongestBelow(cnt[..], ilen);
    NoneBetween(s, scl[..], cnt[..], max, j, ilen);
    LongestBelowIs(s, scl[..], cnt[..], max, j, ilen);
    if j == 0 {
      return dcode, false;
    }
    EnoughLong(s, max, j, ilen);
    SomeOfLength(s, g, cnt[..], max, j);
    Lengthen(lengths, scl, cnt, j, max);
    LengthenedIs(s, j);
    ghost var i := Members(s, j)[0];
    ghost var s1 := lengths[..];
    LengthenSpan(s, i, max);
    forall hi: nat | hi + 2 <= max - bit ensures LowKept(s, s1, bit, max, hi) {
      LengthenLow(s, i, max, bit, hi);
    }
    dcode := dcode - Pow2(max - j - 1);
    if ilen - j > 1 {
      var space := Pow2(ilen - j - 1) - 1;
      SpaceDue(max, j, bit, space);
      dcode := FillSpace(lengths, scl, cnt, dcode, ilen, space, max);
      SameUseTransitive(s, s1, lengths[..]);
      forall hi: nat | hi + 2 <= max - bit ensures LowKept(s, lengths[..], bit, max, hi) {
        LowKeptSame(s, s1, lengths[..], bit, max, hi);
      }
    }
    return dcode, true;
  }

  lemma GroupsShape(s: seq<nat>, scl: seq<seq<nat>>, cnt: seq<nat>, max: nat)
    requires Groups(s, scl, cnt, max)
    ensures |scl| == |cnt| == max + 2 && cnt[0] == 0
  {
  }

  lemma SomeOfLength(s: seq<nat>, scl: seq<seq<nat>>, cnt: seq<nat>, max: nat, l: nat)
    requires Groups(s, scl, cnt, max) && 1 <= l <= max && cnt[l] > 0
    ensures exists i :: 0 <= i < |s| && s[i] == l
  {
    assert Group(s, scl[l], l) && scl[l][0] in scl[l];
  }

  lemma SpaceDue(max: nat, j: nat, bit: nat, space: nat)
    requires j + bit + 1 < max && space == Pow2(max - bit - j - 1) - 1
    ensures space * Pow2(bit) == Pow2(max - j - 1) - Pow2(bit)
    ensures space * Pow2(bit) <= Pow2(max - j)
  {
    Pow2Add(max - bit - j - 1, bit);
    MulAddLeft(Pow2(max - bit - j - 1), -1, Pow2(bit));
  }

  // ----- cutting and grouping -----

  function Cut(s: seq<nat>, max: nat): (c: seq<nat>)
    ensures |c| == |s| && forall i :: 0 <= i < |s| ==> c[i] == if s[i] > max then max else s[i]
  {
    seq(|s|, i requires 0 <= i < |s| => if s[i] > max then max else s[i])
  }

  lemma {:induction false} GroupSpan(s: seq<nat>, g: seq<nat>, l: nat, max: nat)
    requires 1 <= l <= max && Group(s, g, l)
    ensures Span(s, max, l, l) == |g| * Pow2(max - l)
  {
    hide Group, Pow2;
    if s == [] {
      NoGroup(g, l);
    } else {
      var n := |s| - 1;
      GroupLast(s, g, l);
      if s[n] == l {
        var g' := g[..|g| - 1];
        GroupSpan(s[..n], g', l, max);
        MulAddLeft(|g'|, 1, Pow2(max - l));
      } else {
        GroupSpan(s[..n], g, l, max);
      }
    }
  }

  /** The groups of the symbols from position i on. */
  ghost predicate PartGroup(c: seq<nat>, g: seq<nat>, l: nat, i: nat)
  {
    Ascending(g) && forall x: nat :: x in g <==> i <= x < |c| && c[x] == l
  }

  lemma PrependGroup(c: seq<nat>, g: seq<nat>, l: nat, i: nat)
    requires i < |c| && c[i] == l && PartGroup(c, g, l, i + 1)
    ensures PartGroup(c, [i] + g, l, i)
  {
    forall x | x in g ensures i < x {}
    AscendingJoin([i], g);
  }

  /** Cuts the lengths and collects the symbols of each length. */
  method SortByLength(lengths: array<nat>, scl: array<seq<nat>>, cnt: array<nat>, max: nat)
    requires scl.Length == cnt.Length == max + 2 && lengths != cnt && max >= 1
    requires forall l :: 0 <= l < max + 2 ==> scl[l] == [] && cnt[l] == 0
    modifies lengths, scl, cnt
    ensures lengths[..] == Cut(old(lengths[..]), max)
    ensures Groups(lengths[..], scl[..], cnt[..], max)
  {
    ghost var s, c := lengths[..], Cut(lengths[..], max);
    for i := lengths.Length downto 0
      invariant forall k :: 0 <= k < lengths.Length ==> lengths[k] == if k < i then s[k] else c[k]
      invariant cnt[0] == 0
      invariant forall l :: 1 <= l <= max ==> PartGroup(c, scl[l], l, i) && cnt[l] == |scl[l]|
    {
      if lengths[i] != 0 {
        var len := lengths[i];
        if len > max {
          len := max;
          lengths[i] := max;
        }
        PrependGroup(c, scl[len], len, i);
        cnt[len] := cnt[len] + 1;
        scl[len] := [i] + scl[len];
      }
      forall l | 1 <= l <= max ensures PartGroup(c, scl[l], l, i) {
        assert c[i] == l || PartGroup(c, scl[l], l, i + 1);
      }
    }
    assert lengths[..] == c;
    forall l | 1 <= l <= max ensures Group(c, scl[l], l) {
      assert PartGroup(c, scl[l], l, 0);
    }
  }

  method KraftSum(cnt: seq<nat>, max: nat, ghost s: seq<nat>, ghost scl: seq<seq<nat>>) returns (dcode: nat)
    requires Groups(s, scl, cnt, max)
    ensures dcode == Span(s, max, 1, max)
  {
    dcode := 0;
    SpanEmpty(s, max, 1, 0);
    for i := 1 to max + 1
      invariant dcode == Span(s, max, 1, i - 1)
    {
      assert Group(s, scl[i], i);
      GroupSpan(s, scl[i], i, max);
      SpanSplit(s, max, 1, i - 1, i);
      dcode := dcode + Pow2(max - i) * cnt[i];
    }
  }

  /** What the depths of a Huffman tree, cut at max, satisfy. */
  ghost predicate Repairable(c: seq<nat>, max: nat)
  {
    var d := Span(c, max, 1, max);
    && max >= 1 && Pow2(max) <= d < 2 * Pow2(max)
    && (d > Pow2(max) ==> Span(c, max, 1, max - 1) < Pow2(max))
  }

  function Excess(c: seq<nat>, max: nat): int { Span(c, max, 1, max) - Pow2(max) }

  lemma NotSetAfter(v: nat, b: nat)
    requires Low(v, b + 1) == 0
    ensures !BitSet(v, b)
  {
    var p := Pow2(b);
    var h := v / (2 * p);
    assert v == h * (2 * p);
    MulAssoc(h, 2, p);
    DivModUnique(2 * h, p, 0);
    assert v / p == 2 * h;
  }

  lemma FirstPassReady(c: seq<nat>, d: nat, bit: nat, max: nat)
    requires Repairable(c, max) && d == Span(c, max, 1, max) && bit < max && LowestBit(d, bit, max)
    ensures PassReady(c, d, bit, max)
  {
    ClearLowest(d, bit, max);
    SpanWiden(c, max, max - bit - 1, max - 1);
  }

  lemma NextPassReady(s: seq<nat>, s': seq<nat>, d: nat, d': nat, bit: nat, bit': nat, max: nat)
    requires PassReady(s, d, bit, max) && PassDone(s, s', bit, max) && d' == Span(s', max, 1, max)
    requires bit <= bit' && LowestBit(d', bit', max)
    ensures Pow2(max) <= d' < d && bit < bit'
    ensures bit' < max ==> PassReady(s', d', bit', max)
  {
    hide Span, SameUse, Pow2;
    ClearLowest(d, bit, max);
    NotSetAfter(d', bit);
    PowPositive(bit);
    if bit' < max {
      SpanWiden(s, max, max - bit' - 1, max - bit - 1);
      assert LowKept(s, s', bit, max, max - bit' - 1);
    }
  }

  lemma PowPositive(n: nat)
    ensures Pow2(n) > 0
  {
  }

  lemma StuckExcess(s: seq<nat>, d: nat, bit: nat, max: nat, e: nat)
    requires PassReady(s, d, bit, max) && Stuck(s, max - bit) && d <= Pow2(max) + e
    ensures UsedCount(s) * e >= Pow2(max)
  {
    hide Pow2, Span, UsedCount;
    ClearLowest(d, bit, max);
    SpanBound(s, max, max - bit);
    MulLe(Pow2(bit), e, UsedCount(s));
  }

  lemma RepairableBounds(c: seq<nat>, max: nat)
    requires Repairable(c, max)
    ensures max >= 1 && Pow2(max) <= Span(c, max, 1, max) < 2 * Pow2(max)
    ensures forall v: nat :: Low(v, 0) == 0
  {
  }

  lemma PassReadyBounds(s: seq<nat>, d: nat, bit: nat, max: nat)
    requires PassReady(s, d, bit, max)
    ensures bit < max && LowestBit(d, bit, max)
  {
  }

  lemma ExactlyFullAt(d: nat, max: nat)
    requires LowestBit(d, max, max) && Pow2(max) <= d < 2 * Pow2(max)
    ensures d == Pow2(max)
  {
    ExactlyFull(d, max);
  }

  lemma SameUseCount(s: seq<nat>, s': seq<nat>)
    requires SameUse(s, s')
    ensures UsedCount(s) == UsedCount(s')
  {
  }

  lemma GroupsMax(s: seq<nat>, scl: seq<seq<nat>>, cnt: seq<nat>, max: nat)
    requires Groups(s, scl, cnt, max)
    ensures forall i :: 0 <= i < |s| ==> s[i] <= max
  {
  }

  lemma StillLow(s: seq<nat>, s': seq<nat>, d: nat, bit: nat, max: nat)
    requires PassReady(s, d, bit, max) && PassDone(s, s', bit, max)
    ensures Low(Span(s', max, 1, max), bit) == 0
  {
    ClearLowest(d, bit, max);
  }
}
