/** Decoding method-10 blocks gives the tokens back. */
module RansRoundTrip {
  import opened BitStrings
  import opened Options
  import opened Tally
  import opened Tables
  import opened LzCodes
  import opened BlockTokens
  import opened UltraFormat
  import opened UltraRoundTrip
  import opened Rans
  import opened RansCoder
  import opened RansFormat

  // ----- the header -----

  lemma {:induction false} FieldsRead(s: seq<nat>, n: nat, t: seq<bool>, p: nat)
    requires (forall k :: 0 <= k < |s| ==> s[k] < Pow2(n)) && HasBits(t, p, Fields(s, n))
    ensures ReadFields(t, p, |s|, n) == Got(s, p + |s| * n)
  {
    hide Pow2, ReadAt, HasBits, BitsOf;
    if s != [] {
      var m := |s| - 1;
      HasBitsSplit(t, p, Fields(s[..m], n), BitsOf(s[m], n));
      FieldsRead(s[..m], n, t, p);
      ReadAtBits(t, p + m * n, s[m], n);
      MulAddLeft(m, 1, n);
      assert s[..m] + [s[m]] == s;
    }
  }

  lemma SizesAreFields(a: nat, b: nat)
    ensures Fields([a / 256, a % 256, b / 256, b % 256], 8) == TwoBytes(a) + TwoBytes(b)
  {
    hide BitsOf;
    var s := [a / 256, a % 256, b / 256, b % 256];
    assert s[..3] == [a / 256, a % 256, b / 256];
    assert s[..3][..2] == [a / 256, a % 256];
    assert [a / 256, a % 256][..1] == [a / 256];
    assert [a / 256][..0] == [];
    assert Fields([a / 256], 8) == BitsOf(a / 256, 8);
    assert Fields([a / 256, a % 256], 8) == TwoBytes(a);
    assert Fields(s[..3], 8) == TwoBytes(a) + BitsOf(b / 256, 8);
  }

  lemma PowersAt()
    ensures Pow2(8) == 256 && Pow2(12) == 4096 && Pow2(1) == 2
  {
    Pow2Values();
    ExtraPowers();
  }

  lemma SizeDigits(n: nat)
    requires n < 65536
    ensures n / 256 < 256 && n % 256 < 256 && n / 256 * 256 + n % 256 == n
  {
  }

  lemma SizesRead(a: nat, b: nat, t: seq<bool>, p: nat)
    requires a < 65536 && b < 65536 && HasBits(t, p, TwoBytes(a) + TwoBytes(b))
    ensures ReadFields(t, p, 4, 8) == Got([a / 256, a % 256, b / 256, b % 256], p + 32)
  {
    hide Pow2, HasBits, Fields, ReadFields, TwoBytes;
    PowersAt();
    SizeDigits(a);
    SizeDigits(b);
    SizesAreFields(a, b);
    FieldsRead([a / 256, a % 256, b / 256, b % 256], 8, t, p);
  }

  lemma Regroup(x: seq<bool>, y: seq<bool>, z: seq<bool>)
    ensures x + (y + z) == x + y + z
  {
  }

  lemma HeaderFields(n: nat, freq: seq<nat>, data: seq<byte>, t: seq<bool>, p: nat)
    requires n < 65536 && |data| < 65536 && |freq| == MAX_SYMS && forall k :: 0 <= k < MAX_SYMS ==> freq[k] < 4096
    requires HasBits(t, p, TwoBytes(n) + (TwoBytes(|data|) + (Fields(freq, 12) + Fields(data, 8))))
    ensures ReadFields(t, p, 4, 8) == Got([n / 256, n % 256, |data| / 256, |data| % 256], p + 32)
    ensures ReadFields(t, p + 32, MAX_SYMS, 12) == Got(freq, p + 32 + MAX_SYMS * 12)
    ensures ReadFields(t, p + 32 + MAX_SYMS * 12, |data|, 8) == Got(data, p + 32 + MAX_SYMS * 12 + |data| * 8)
  {
    hide Pow2, HasBits, Fields, ReadFields, TwoBytes;
    PowersAt();
    var sizes, table, bytes := TwoBytes(n) + TwoBytes(|data|), Fields(freq, 12), Fields(data, 8);
    assert |sizes| == 32 && |table| == MAX_SYMS * 12;
    Regroup(TwoBytes(n), TwoBytes(|data|), table + bytes);
    HasBitsSplit(t, p, sizes, table + bytes);
    HasBitsSplit(t, p + 32, table, bytes);
    SizesRead(n, |data|, t, p);
    FieldsRead(freq, 12, t, p + 32);
    FieldsRead(data, 8, t, p + 32 + MAX_SYMS * 12);
  }

  /** The header of a good block is read back, with the table unchanged by the second normalisation. */
  lemma HeaderRead(n: nat, tab: RansTable, data: seq<byte>, t: seq<bool>, p: nat)
    requires n < 65536 && |data| < 65536 && Fair(tab) && forall k :: 0 <= k < MAX_SYMS ==> tab.freq[k] < 4096
    requires HasBits(t, p, TwoBytes(n) + (TwoBytes(|data|) + (Fields(tab.freq, 12) + Fields(data, 8))))
    ensures ReadRansHeader(t, p) == Got(RansHeader(n, tab, data), p + 32 + MAX_SYMS * 12 + |data| * 8)
  {
    hide *;
    FairShape(tab);
    FairAgain(tab);
    HeaderFields(n, tab.freq, data, t, p);
    SizeDigits(n);
    SizeDigits(|data|);
    HeaderParts(t, p, n / 256, n % 256, |data| / 256, |data| % 256, tab.freq, data);
  }

  lemma HeaderParts(t: seq<bool>, p: nat, n0: nat, n1: nat, n2: nat, n3: nat, freq: seq<nat>, data: seq<byte>)
    requires |freq| == MAX_SYMS && |data| == n2 * 256 + n3
    requires ReadFields(t, p, 4, 8) == Got([n0, n1, n2, n3], p + 32)
    requires ReadFields(t, p + 32, MAX_SYMS, 12) == Got(freq, p + 32 + MAX_SYMS * 12)
    requires ReadFields(t, p + 32 + MAX_SYMS * 12, |data|, 8) == Got(data, p + 32 + MAX_SYMS * 12 + |data| * 8)
    ensures ReadRansHeader(t, p) == Got(RansHeader(n0 * 256 + n1, Normalised(freq), data), p + 32 + MAX_SYMS * 12 + |data| * 8)
  {
    hide Pow2, ReadFields, Normalised;
  }

  // ----- the symbols -----

  /** The decoder that has the symbols s still to come. */
  function Pull(tab: RansTable, s: seq<nat>): Puller
    requires |tab.freq| == |tab.cum| == MAX_SYMS && forall k :: 0 <= k < |s| ==> s[k] < MAX_SYMS
  {
    Puller(EncodeAll(tab, s).state, Reversed(EncodeAll(tab, s).rev))
  }

  lemma PullFirst(tab: RansTable, s: seq<nat>)
    requires Fair(tab) && AllUsed(tab, s) && s != []
    ensures DecodeOne(tab, Pull(tab, s)) == (s[0], Pull(tab, s[1..])) && AllUsed(tab, s[1..])
  {
    hide EncodeOne, DecodeOne, Sum, Reversed, DecodeMany;
    SymbolsRoundTrip(tab, s[1..]);
    OneSymbol(tab, EncodeAll(tab, s[1..]), s[0]);
  }

  lemma ExtraAt(v: nat, base: nat, n: nat, t: seq<bool>, p: nat)
    requires base <= v < base + Pow2(n) && HasBits(t, p, BitsOf(v - base, n))
    ensures base + ReadAt(t, p, n) == v && ReadAt(t, p, n) >= 0
  {
    ReadAtBits(t, p, v - base, n);
  }

  lemma LiteralBody(tab: RansTable, b: byte, d: Puller, d1: Puller, t: seq<bool>, p: nat, left: nat, hist: seq<byte>, cap: nat)
    requires |tab.freq| == |tab.cum| == MAX_SYMS && left >= 1 && DecodeOne(tab, d) == (b as nat, d1) && |hist| < cap
    ensures ReadRansBody(tab, d, t, p, left, hist, cap) == ReadRansBody(tab, d1, t, p, left - 1, hist + [b], cap)
  {
    hide DecodeOne;
  }

  lemma MatchBody(tab: RansTable, dist: nat, len: nat, d: Puller, d1: Puller, d2: Puller, t: seq<bool>, p: nat, left: nat,
                  hist: seq<byte>, cap: nat)
    requires |tab.freq| == |tab.cum| == MAX_SYMS && left >= 2 && TokenOk(Match(dist, len)) && Reachable(hist, dist)
    requires DecodeOne(tab, d) == (NUM_BYTE_SYM + DistSym(dist), d1) && DecodeOne(tab, d1) == (FIRST_LEN + LenSym(len), d2)
    requires HasBits(t, p, Extras(Match(dist, len))) && |hist| + len <= cap
    ensures ReadRansBody(tab, d, t, p, left, hist, cap)
            == ReadRansBody(tab, d2, t, p + |Extras(Match(dist, len))|, left - 2, Copy(hist, dist, len), cap)
  {
    hide DecodeOne, HasBits, ReadAt, Pow2, DistSym, LenSym, DistBase, DistBits, LenBase, LenBits, BitsOf, Copy;
    var ds, ls := DistSym(dist), LenSym(len);
    DistSymRange(dist);
    LenSymRange(len);
    HasBitsSplit(t, p, BitsOf(dist - DistBase(ds), DistBits(ds)), BitsOf(len - LenBase(ls), LenBits(ls)));
    ExtraAt(dist, DistBase(ds), DistBits(ds), t, p);
    ExtraAt(len, LenBase(ls), LenBits(ls), t, p + DistBits(ds));
  }

  lemma EndBody(tab: RansTable, d: Puller, d1: Puller, t: seq<bool>, p: nat, left: nat, hist: seq<byte>, cap: nat)
    requires |tab.freq| == |tab.cum| == MAX_SYMS && left >= 2 && |hist| <= cap
    requires DecodeOne(tab, d) == (NUM_BYTE_SYM + DistSym(EOB_MARK), d1) && HasBits(t, p, EndExtras())
    ensures ReadRansBody(tab, d, t, p, left, hist, cap) == Done(hist, p + |EndExtras()|)
  {
    hide DecodeOne, HasBits, ReadAt, Pow2, DistSym, DistBase, DistBits, BitsOf;
    var ds := DistSym(EOB_MARK);
    DistSymRange(EOB_MARK);
    ExtraAt(EOB_MARK, DistBase(ds), DistBits(ds), t, p);
  }

  lemma FirstToken(toks: seq<Token>, tab: RansTable)
    requires TokensOk(toks) && toks != [] && AllUsed(tab, BlockSyms(toks))
    ensures BlockSyms(toks)[0] == Syms(toks[0])[0] && 1 <= |Syms(toks[0])| <= 2 && TokensOk(toks[1..])
    ensures |Syms(toks[0])| == 1 ==> BlockSyms(toks)[1..] == BlockSyms(toks[1..])
    ensures |Syms(toks[0])| == 2 ==> BlockSyms(toks)[1] == Syms(toks[0])[1] && BlockSyms(toks)[1..][1..] == BlockSyms(toks[1..])
    ensures |BlockSyms(toks)| == |Syms(toks[0])| + |BlockSyms(toks[1..])|
    ensures BlockExtras(toks) == Extras(toks[0]) + BlockExtras(toks[1..])
  {
    hide DistSym, LenSym, DistBits, LenBits, DistBase, LenBase, BitsOf;
  }

  lemma StepLiteral(tab: RansTable, toks: seq<Token>, b: byte, t: seq<bool>, p: nat, hist: seq<byte>, cap: nat)
    requires TokensOk(toks) && toks != [] && toks[0] == Literal(b) && |hist| < cap
    requires Fair(tab) && AllUsed(tab, BlockSyms(toks)) && HasBits(t, p, BlockExtras(toks))
    ensures ReadRansBody(tab, Pull(tab, BlockSyms(toks)), t, p, |BlockSyms(toks)|, hist, cap)
            == ReadRansBody(tab, Pull(tab, BlockSyms(toks[1..])), t, p, |BlockSyms(toks[1..])|, hist + [b], cap)
    ensures AllUsed(tab, BlockSyms(toks[1..])) && BlockExtras(toks) == BlockExtras(toks[1..])
  {
    hide ReadRansBody, DecodeOne, Pull, Fair, AllUsed, HasBits, Extras, EndExtras, BlockSyms, BlockExtras;
    var s := BlockSyms(toks);
    FairShape(tab);
    FirstToken(toks, tab);
    PullFirst(tab, s);
    NoExtras(b);
    LiteralBody(tab, b, Pull(tab, s), Pull(tab, s[1..]), t, p, |s|, hist, cap);
  }

  lemma StepMatch(tab: RansTable, toks: seq<Token>, dist: nat, len: nat, t: seq<bool>, p: nat, hist: seq<byte>, cap: nat)
    requires TokensOk(toks) && toks != [] && toks[0] == Match(dist, len) && Reachable(hist, dist) && |hist| + len <= cap
    requires Fair(tab) && AllUsed(tab, BlockSyms(toks)) && HasBits(t, p, BlockExtras(toks))
    ensures var p' := p + |Extras(toks[0])|;
            && ReadRansBody(tab, Pull(tab, BlockSyms(toks)), t, p, |BlockSyms(toks)|, hist, cap)
               == ReadRansBody(tab, Pull(tab, BlockSyms(toks[1..])), t, p', |BlockSyms(toks[1..])|, Copy(hist, dist, len), cap)
            && HasBits(t, p', BlockExtras(toks[1..]))
    ensures AllUsed(tab, BlockSyms(toks[1..])) && |BlockExtras(toks)| == |Extras(toks[0])| + |BlockExtras(toks[1..])|
  {
    hide ReadRansBody, DecodeOne, Pull, Fair, AllUsed, HasBits, Extras, EndExtras, BlockSyms, BlockExtras, Copy;
    var s := BlockSyms(toks);
    FairShape(tab);
    FirstToken(toks, tab);
    PullFirst(tab, s);
    PullFirst(tab, s[1..]);
    HasBitsSplit(t, p, Extras(toks[0]), BlockExtras(toks[1..]));
    MatchBody(tab, dist, len, Pull(tab, s), Pull(tab, s[1..]), Pull(tab, s[1..][1..]), t, p, |s|, hist, cap);
  }

  lemma StepEnd(tab: RansTable, t: seq<bool>, p: nat, hist: seq<byte>, cap: nat)
    requires Fair(tab) && AllUsed(tab, BlockSyms([])) && HasBits(t, p, BlockExtras([])) && |hist| <= cap
    ensures ReadRansBody(tab, Pull(tab, BlockSyms([])), t, p, |BlockSyms([])|, hist, cap) == Done(hist, p + |BlockExtras([])|)
  {
    hide ReadRansBody, DecodeOne, Pull, Fair, AllUsed, HasBits, EndExtras;
    var s := BlockSyms([]);
    FairShape(tab);
    PullFirst(tab, s);
    EndBody(tab, Pull(tab, s), Pull(tab, s[1..]), t, p, 2, hist, cap);
  }

  /** A block's symbols and extra bits replay its tokens. */
  lemma {:induction false} BodyRead(tab: RansTable, toks: seq<Token>, t: seq<bool>, p: nat, hist: seq<byte>, cap: nat)
    requires TokensOk(toks) && AppliesAll(toks, hist) && |ApplyAll(toks, hist)| <= cap && |hist| <= cap
    requires Fair(tab) && AllUsed(tab, BlockSyms(toks)) && HasBits(t, p, BlockExtras(toks))
    ensures ReadRansBody(tab, Pull(tab, BlockSyms(toks)), t, p, |BlockSyms(toks)|, hist, cap)
            == Done(ApplyAll(toks, hist), p + |BlockExtras(toks)|)
    decreases |toks|
  {
    hide ReadRansBody, Pull, Fair, AllUsed, HasBits, Extras, EndExtras, BlockSyms, BlockExtras, Copy, AppliesAll, ApplyAll;
    FairShape(tab);
    ApplyFirst(toks, hist);
    if toks == [] {
      StepEnd(tab, t, p, hist, cap);
    } else {
      match toks[0]
      case Literal(b) =>
        StepLiteral(tab, toks, b, t, p, hist, cap);
        BodyRead(tab, toks[1..], t, p, hist + [b], cap);
      case Match(dist, len) =>
        StepMatch(tab, toks, dist, len, t, p, hist, cap);
        BodyRead(tab, toks[1..], t, p + |Extras(toks[0])|, Copy(hist, dist, len), cap);
    }
  }

  lemma ApplyFirst(toks: seq<Token>, hist: seq<byte>)
    requires AppliesAll(toks, hist)
    ensures toks == [] ==> ApplyAll(toks, hist) == hist
    ensures toks != [] ==>
      && Applies(toks[0], hist) && |Apply(toks[0], hist)| <= |ApplyAll(toks, hist)|
      && AppliesAll(toks[1..], Apply(toks[0], hist)) && ApplyAll(toks, hist) == ApplyAll(toks[1..], Apply(toks[0], hist))
  {
  }

  lemma NoExtras(b: byte)
    ensures Extras(Literal(b)) == []
  {
  }

  lemma FairShape(tab: RansTable)
    requires Fair(tab)
    ensures |tab.freq| == |tab.cum| == MAX_SYMS
  {
  }

  // ----- blocks -----

  lemma CountedUsed(s: seq<nat>, tab: RansTable)
    requires (forall k :: 0 <= k < |s| ==> s[k] < MAX_SYMS) && Faithful(Counts(s), tab)
    ensures AllUsed(tab, s)
  {
    forall k | 0 <= k < |s| ensures tab.freq[s[k]] > 0 {
      CountedOnce(s, k);
      assert Counts(s)[s[k]] > 0;
    }
  }

  lemma {:induction false} EndsWithMark(toks: seq<Token>)
    requires TokensOk(toks)
    ensures var s := BlockSyms(toks); s[|s| - 2] == EndSyms()[0] && s[|s| - 1] == EndSyms()[1]
  {
    if toks != [] {
      EndsWithMark(toks[1..]);
    }
  }

  lemma EndSymsApart()
    ensures EndSyms()[0] < EndSyms()[1]
  {
  }

  /** A good block's table: every symbol used, every frequency in 12 bits. */
  lemma GoodTable12(toks: seq<Token>)
    requires RansGood(toks)
    ensures AllUsed(BlockTable(toks), BlockSyms(toks))
    ensures forall k :: 0 <= k < MAX_SYMS ==> BlockTable(toks).freq[k] < 4096
  {
    hide Counts, Normalised, Sum, BlockSyms, EndSyms;
    var tab, s := BlockTable(toks), BlockSyms(toks);
    CountedUsed(s, tab);
    EndsWithMark(toks);
    EndSymsApart();
    TwelveBits(tab, s[|s| - 2], s[|s| - 1]);
  }

  lemma BlockBytesShape(toks: seq<Token>)
    requires RansGood(toks)
    ensures |BlockBytes(toks)| <= 2 * |BlockSyms(toks)| + 4 < 65536
    ensures Head(BlockBytes(toks), 4) == Pull(BlockTable(toks), BlockSyms(toks))
  {
    hide BlockTable, BlockSyms, Head, EncodeAll, Reversed, DecodeMany, Fair;
    GoodTable12(toks);
    BytesBound(BlockTable(toks), BlockSyms(toks));
    SymbolsRoundTrip(BlockTable(toks), BlockSyms(toks));
    HeadOfPacked(EncodeAll(BlockTable(toks), BlockSyms(toks)));
  }

  lemma RansBitsParts(toks: seq<Token>)
    requires TokensOk(toks)
    ensures RansBits(toks) == BitsOf(1, 1) + (RansHeaderBits(toks) + BlockExtras(toks))
    ensures |RansHeaderBits(toks)| == 32 + MAX_SYMS * 12 + |BlockBytes(toks)| * 8
  {
    hide BitsOf, TwoBytes, Fields, BlockTable, BlockBytes, BlockExtras, BlockSyms;
    var a, b, c, d, e := TwoBytes(|BlockSyms(toks)|), TwoBytes(|BlockBytes(toks)|), Fields(BlockTable(toks).freq, 12),
                         Fields(BlockBytes(toks), 8), BlockExtras(toks);
    JoinParts(a, b, c, d, e);
  }

  lemma JoinParts(a: seq<bool>, b: seq<bool>, c: seq<bool>, d: seq<bool>, e: seq<bool>)
    ensures a + (b + (c + (d + e))) == (a + (b + (c + d))) + e
  {
  }

  function RansHeaderBits(toks: seq<Token>): seq<bool>
    requires TokensOk(toks)
  {
    TwoBytes(|BlockSyms(toks)|) + (TwoBytes(|BlockBytes(toks)|) + (Fields(BlockTable(toks).freq, 12) + Fields(BlockBytes(toks), 8)))
  }

  lemma GoodShape(toks: seq<Token>)
    requires RansGood(toks)
    ensures TokensOk(toks) && Fair(BlockTable(toks)) && |BlockSyms(toks)| <= 32765
  {
    hide BlockSyms, BlockTable, Counts, TokenOk, Fair;
  }

  lemma BlockPlaces(toks: seq<Token>, t: seq<bool>, p: nat)
    requires TokensOk(toks) && HasBits(t, p, RansBits(toks))
    ensures ReadAt(t, p, 1) == 1 && HasBits(t, p + 1, RansHeaderBits(toks))
    ensures HasBits(t, p + 1 + |RansHeaderBits(toks)|, BlockExtras(toks))
    ensures |RansBits(toks)| == 1 + |RansHeaderBits(toks)| + |BlockExtras(toks)|
  {
    hide *;
    RansBitsParts(toks);
    HasBitsSplit(t, p, BitsOf(1, 1), RansHeaderBits(toks) + BlockExtras(toks));
    OneBit(t, p, 1);
    HasBitsSplit(t, p + 1, RansHeaderBits(toks), BlockExtras(toks));
  }

  ghost predicate ReadsAs(r: Parse<RansHeader>, t: seq<bool>, hist: seq<byte>, cap: nat, e: RansEnd)
    requires r.Got? ==> |r.value.tab.freq| == |r.value.tab.cum| == MAX_SYMS
    requires |hist| <= cap
  {
    r.Got? && ReadRansBody(r.value.tab, Head(r.value.data, 4), t, r.pos, r.value.nsyms, hist, cap) == e
  }

  /** One good block where RansDecode looks for it. */
  lemma BlockRead(toks: seq<Token>, t: seq<bool>, p: nat, hist: seq<byte>, cap: nat)
    requires RansGood(toks) && TokensOk(toks) && AppliesAll(toks, hist) && |hist| <= cap && |ApplyAll(toks, hist)| <= cap
    requires HasBits(t, p, RansBits(toks))
    ensures ReadAt(t, p, 1) == 1
    ensures ReadsAs(ReadRansHeader(t, p + 1), t, hist, cap, Done(ApplyAll(toks, hist), p + |RansBits(toks)|))
  {
    hide BlockSyms, BlockTable, BlockBytes, BlockExtras, RansBits, RansHeaderBits, ReadRansHeader, ReadRansBody, Head, RansGood,
         Pull, AppliesAll, ApplyAll, TokensOk, HasBits, Fair, ReadAt, AllUsed;
    BlockPlaces(toks, t, p);
    GoodShape(toks);
    GoodTable12(toks);
    BlockBytesShape(toks);
    BlockHeaderRead(toks, t, p + 1);
    BodyRead(BlockTable(toks), toks, t, p + 1 + |RansHeaderBits(toks)|, hist, cap);
  }

  lemma BlockHeaderRead(toks: seq<Token>, t: seq<bool>, p: nat)
    requires RansGood(toks) && TokensOk(toks) && HasBits(t, p, RansHeaderBits(toks))
    ensures ReadRansHeader(t, p) == Got(RansHeader(|BlockSyms(toks)|, BlockTable(toks), BlockBytes(toks)), p + |RansHeaderBits(toks)|)
  {
    hide *;
    GoodShape(toks);
    GoodTable12(toks);
    BlockBytesShape(toks);
    RansBitsParts(toks);
    HeaderBitsAre(toks);
    HeaderRead(|BlockSyms(toks)|, BlockTable(toks), BlockBytes(toks), t, p);
  }

  lemma HeaderBitsAre(toks: seq<Token>)
    requires TokensOk(toks)
    ensures RansHeaderBits(toks) == TwoBytes(|BlockSyms(toks)|) + (TwoBytes(|BlockBytes(toks)|)
                                    + (Fields(BlockTable(toks).freq, 12) + Fields(BlockBytes(toks), 8)))
  {
    hide BlockSyms, BlockTable, BlockBytes, TwoBytes, Fields;
  }

  lemma OneBit(t: seq<bool>, p: nat, v: nat)
    requires v < 2 && HasBits(t, p, BitsOf(v, 1))
    ensures ReadAt(t, p, 1) == v
  {
    PowersAt();
    ReadAtBits(t, p, v, 1);
  }

  // ----- streams -----

  ghost predicate RansGoodBlocks(bs: seq<Block>)
  {
    bs != [] ==> RansGood(bs[0].toks) && RansGoodBlocks(bs[1..])
  }

  ghost function RansBlocksBits(bs: seq<Block>): seq<bool>
    requires RansGoodBlocks(bs)
  {
    if bs == [] then [] else RansBits(bs[0].toks) + RansBlocksBits(bs[1..])
  }

  lemma RansDecodeStep(t: seq<bool>, p: nat, hist: seq<byte>, cap: nat, e: RansEnd)
    requires |hist| <= cap && ReadAt(t, p, 1) == 1 && e.Done? && ReadsAs(ReadRansHeader(t, p + 1), t, hist, cap, e) && |e.hist| <= cap
    ensures RansDecode(t, p, hist, cap) == RansDecode(t, e.pos, e.hist, cap)
  {
    hide ReadRansHeader, ReadRansBody, ReadAt, Head;
  }

  lemma RansDecodeEnd(t: seq<bool>, p: nat, hist: seq<byte>, cap: nat)
    requires |hist| <= cap && ReadAt(t, p, 1) == 0
    ensures RansDecode(t, p, hist, cap) == Decoded(hist, p + 1)
  {
    hide ReadRansHeader, ReadRansBody, ReadAt, Head;
  }

  lemma FirstBlock(bs: seq<Block>)
    requires RansGoodBlocks(bs) && bs != []
    ensures RansGood(bs[0].toks) && TokensOk(bs[0].toks) && RansGoodBlocks(bs[1..])
    ensures RansBlocksBits(bs) == RansBits(bs[0].toks) + RansBlocksBits(bs[1..])
    ensures BlocksTokens(bs) == bs[0].toks + BlocksTokens(bs[1..])
  {
    hide RansBits, Fair, BlockTable, BlockSyms, Faithful;
  }

  /** Good blocks followed by a clear presence bit decode to their tokens, if the limit leaves room for them. */
  lemma {:induction false} RansStreamRead(bs: seq<Block>, t: seq<bool>, p: nat, hist: seq<byte>, cap: nat)
    requires RansGoodBlocks(bs) && AppliesAll(BlocksTokens(bs), hist) && |hist| <= |ApplyAll(BlocksTokens(bs), hist)| <= cap
    requires HasBits(t, p, RansBlocksBits(bs) + BitsOf(0, 1))
    ensures RansDecode(t, p, hist, cap) == Decoded(ApplyAll(BlocksTokens(bs), hist), p + |RansBlocksBits(bs)| + 1)
    decreases |bs|
  {
    hide RansDecode, ReadRansHeader, ReadRansBody, RansBits, RansGood, HasBits, AppliesAll, ApplyAll, BlocksTokens, ReadAt, BitsOf, TokensOk,
         ReadsAs, RansBlocksBits, RansGoodBlocks;
    if bs == [] {
      NoBlocks();
      NoTokens(hist);
      OneBit(t, p, 0);
      RansDecodeEnd(t, p, hist, cap);
    } else {
      FirstBlock(bs);
      var toks, rest := bs[0].toks, RansBlocksBits(bs[1..]) + BitsOf(0, 1);
      assert RansBlocksBits(bs) + BitsOf(0, 1) == RansBits(toks) + rest;
      HasBitsSplit(t, p, RansBits(toks), rest);
      SplitTokens(toks, BlocksTokens(bs[1..]), hist);
      var h' := ApplyAll(toks, hist);
      BlockRead(toks, t, p, hist, cap);
      RansDecodeStep(t, p, hist, cap, Done(h', p + |RansBits(toks)|));
      RansStreamRead(bs[1..], t, p + |RansBits(toks)|, h', cap);
    }
  }

  lemma NoBlocks()
    ensures RansGoodBlocks([]) && RansBlocksBits([]) == [] && BlocksTokens([]) == []
    ensures RansBlocksBits([]) + BitsOf(0, 1) == BitsOf(0, 1)
  {
  }

  lemma NoTokens(hist: seq<byte>)
    ensures AppliesAll([], hist) && ApplyAll([], hist) == hist
  {
  }
}
