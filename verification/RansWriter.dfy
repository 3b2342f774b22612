/** Writing one method-10 block: symbols and extra bits apart, the table, the rANS bytes. */
module RansWriter {
  import opened BitStrings
  import opened BitIO
  import opened Tally
  import opened Tables
  import opened LzCodes
  import opened BlockTokens
  import opened BlockWriter
  import opened UltraFormat
  import opened Rans
  import opened RansCoder
  import opened RansFormat
  import opened RansRoundTrip

  // ----- collecting symbols and extra bits -----

  /** Extra-bit fields, each a value and its width, one after the other. */
  function PairsBits(pairs: seq<(nat, nat)>): seq<bool>
  {
    if pairs == [] then [] else PairsBits(pairs[..|pairs| - 1]) + BitsOf(pairs[|pairs| - 1].0, pairs[|pairs| - 1].1)
  }

  predicate PairsFit(pairs: seq<(nat, nat)>)
  {
    forall k :: 0 <= k < |pairs| ==> pairs[k].1 <= 16 && pairs[k].0 < Pow2(pairs[k].1)
  }

  lemma NothingYet(pairs: seq<(nat, nat)>)
    ensures PairsBits(pairs[..0]) == []
  {
  }

  lemma NextPair(pairs: seq<(nat, nat)>, j: nat)
    requires PairsFit(pairs) && j < |pairs|
    ensures pairs[j].1 <= 16 && pairs[j].0 < Pow2(pairs[j].1)
    ensures PairsBits(pairs[..j + 1]) == PairsBits(pairs[..j]) + BitsOf(pairs[j].0, pairs[j].1)
  {
    hide BitsOf, Pow2;
    assert pairs[..j + 1][..j] == pairs[..j];
  }

  lemma PairAppended(pairs: seq<(nat, nat)>, v: nat, n: nat)
    requires PairsFit(pairs) && n <= 16 && v < Pow2(n)
    ensures PairsFit(pairs + [(v, n)]) && PairsBits(pairs + [(v, n)]) == PairsBits(pairs) + BitsOf(v, n)
  {
    assert (pairs + [(v, n)])[..|pairs|] == pairs;
  }

  /** Adds an extra-bit field unless its width is zero. */
  method AddExtra(pairs0: seq<(nat, nat)>, v: nat, n: nat) returns (pairs: seq<(nat, nat)>)
    requires PairsFit(pairs0) && n <= 16 && v < Pow2(n)
    ensures PairsFit(pairs) && PairsBits(pairs) == PairsBits(pairs0) + BitsOf(v, n)
  {
    pairs := pairs0;
    if n > 0 {
      PairAppended(pairs0, v, n);
      pairs := pairs0 + [(v, n)];
    } else {
      hide PairsBits;
      assert PairsBits(pairs0) == PairsBits(pairs0) + BitsOf(v, 0);
    }
  }

  /** The symbols and extra bits of the next buffered token. */
  method CollectToken(ibuf: seq<nat>, i: nat, syms0: seq<nat>, pairs0: seq<(nat, nat)>, ghost tok: Token)
    returns (j: nat, syms: seq<nat>, pairs: seq<(nat, nat)>)
    requires TokenOk(tok) && i + |Entries(tok)| <= |ibuf| && ibuf[i..i + |Entries(tok)|] == Entries(tok) && PairsFit(pairs0)
    ensures j == i + |Entries(tok)| && syms == syms0 + Syms(tok)
    ensures PairsFit(pairs) && PairsBits(pairs) == PairsBits(pairs0) + Extras(tok)
  {
    hide Pow2, BitsOf, PairsBits, PairsFit, DistBase, DistBits, LenBase, LenBits, LenSym, DistSym;
    assert ibuf[i] == ibuf[i..i + |Entries(tok)|][0];
    KindAt(tok);
    var val := ibuf[i];
    if val < 256 {
      return i + 1, syms0 + [val], pairs0;
    }
    LengthEntry(tok, ibuf, i);
    EntryAt(ibuf, i, DistEntries(tok.dist));
    DistSymRange(tok.dist);
    LenSymRange(tok.len);
    var dsym := val - 256;
    j := i + 1;
    ExtraOrNone(tok.dist);
    var extra := 0;
    if DistBits(dsym) > 0 {
      extra := ibuf[j];
      j := j + 1;
    }
    pairs := AddExtra(pairs0, extra, DistBits(dsym));
    var len := ibuf[j];
    j := j + 1;
    var lsym := FindLenSym(len);
    pairs := AddExtra(pairs, len - LenBase(lsym), LenBits(lsym));
    syms := syms0 + [NUM_BYTE_SYM + dsym] + [FIRST_LEN + lsym];
  }

  lemma ExtraOrNone(d: nat)
    requires 1 <= d <= EOB_MARK
    ensures DistBits(DistSym(d)) == 0 ==> d - DistBase(DistSym(d)) == 0
  {
    DistSymRange(d);
    ExtraPowers();
  }

  /** The symbols and extra bits of the first k tokens. */
  function SymsUpTo(toks: seq<Token>, k: nat): (s: seq<nat>)
    requires TokensOk(toks) && k <= |toks|
    ensures forall i :: 0 <= i < |s| ==> s[i] < MAX_SYMS
  {
    if k == 0 then [] else SymsUpTo(toks, k - 1) + Syms(toks[k - 1])
  }

  function ExtrasUpTo(toks: seq<Token>, k: nat): seq<bool>
    requires TokensOk(toks) && k <= |toks|
  {
    if k == 0 then [] else ExtrasUpTo(toks, k - 1) + Extras(toks[k - 1])
  }

  lemma {:induction false} CollectedSoFar(toks: seq<Token>, k: nat)
    requires TokensOk(toks) && k <= |toks|
    ensures TokensOk(toks[k..]) && BlockSyms(toks) == SymsUpTo(toks, k) + BlockSyms(toks[k..])
    ensures BlockExtras(toks) == ExtrasUpTo(toks, k) + BlockExtras(toks[k..])
  {
    hide Syms, Extras, EndSyms, EndExtras, TokenOk;
    if k == 0 {
      assert toks[0..] == toks;
    } else {
      CollectedSoFar(toks, k - 1);
      assert toks[k - 1..][1..] == toks[k..];
    }
  }

  lemma CollectedAll(toks: seq<Token>)
    requires TokensOk(toks)
    ensures BlockSyms(toks) == SymsUpTo(toks, |toks|) + EndSyms()
    ensures BlockExtras(toks) == ExtrasUpTo(toks, |toks|) + EndExtras()
  {
    CollectedSoFar(toks, |toks|);
    assert toks[|toks|..] == [];
  }

  method Collect(ibuf: seq<nat>, ghost toks: seq<Token>) returns (syms: seq<nat>, pairs: seq<(nat, nat)>)
    requires TokensOk(toks) && ibuf == AllEntries(toks)
    ensures syms == BlockSyms(toks) && PairsFit(pairs) && PairsBits(pairs) == BlockExtras(toks)
    ensures |syms| <= |ibuf| + 2
  {
    hide Entries, AllEntries, PairsBits, PairsFit, Syms, Extras, BlockSyms, BlockExtras, EndExtras;
    syms, pairs := [], [];
    ghost var k: nat := 0;
    var i := 0;
    assert toks[0..] == toks;
    NoPairs();
    while i < |ibuf|
      invariant i <= |ibuf| && k <= |toks| && ibuf[i..] == AllEntries(toks[k..])
      invariant syms == SymsUpTo(toks, k) && PairsFit(pairs) && PairsBits(pairs) == ExtrasUpTo(toks, k) && |syms| <= i
    {
      NoEntries(toks, k);
      FirstEntries(toks, k, ibuf, i);
      SymsNoMore(toks[k]);
      i, syms, pairs := CollectToken(ibuf, i, syms, pairs, toks[k]);
      k := k + 1;
    }
    NoEntries(toks, k);
    CollectedAll(toks);
    var dsym := FindDistSym(EOB_MARK);
    EndParts();
    pairs := AddExtra(pairs, EOB_MARK - DistBase(dsym), DistBits(dsym));
    syms := syms + [NUM_BYTE_SYM + dsym, FIRST_LEN];
  }

  lemma NoPairs()
    ensures PairsFit([]) && PairsBits([]) == []
  {
  }

  lemma SymsNoMore(tok: Token)
    requires TokenOk(tok)
    ensures |Syms(tok)| <= |Entries(tok)|
  {
    hide DistEntries;
  }

  lemma EndParts()
    ensures var ds := DistSym(EOB_MARK);
            && EndSyms() == [NUM_BYTE_SYM + ds, FIRST_LEN]
            && EOB_MARK >= DistBase(ds) && EOB_MARK - DistBase(ds) < Pow2(DistBits(ds)) && DistBits(ds) <= 16
            && EndExtras() == BitsOf(EOB_MARK - DistBase(ds), DistBits(ds))
  {
    hide BitsOf, Pow2;
    DistSymRange(EOB_MARK);
  }

  // ----- the table and the bytes -----

  lemma CountStep(s: seq<nat>, c: seq<nat>, v: nat)
    requires c == Counts(s) && v < MAX_SYMS
    ensures c[v := c[v] + 1] == Counts(s + [v])
  {
    assert (s + [v])[..|s|] == s;
    forall x: nat | x < MAX_SYMS ensures c[v := c[v] + 1][x] == Counts(s + [v])[x] {
      assert CountOf(s + [v], x) == CountOf(s, x) + if v == x then 1 else 0;
    }
  }

  method CountSyms(syms: seq<nat>) returns (freqs: seq<nat>)
    requires forall k :: 0 <= k < |syms| ==> syms[k] < MAX_SYMS
    ensures freqs == Counts(syms)
  {
    freqs := seq(MAX_SYMS, _ => 0);
    assert freqs == Counts([]);
    assert syms[..0] == [];
    for j := 0 to |syms|
      invariant freqs == Counts(syms[..j])
    {
      CountStep(syms[..j], freqs, syms[j]);
      assert syms[..j + 1] == syms[..j] + [syms[j]];
      freqs := freqs[syms[j] := freqs[syms[j]] + 1];
    }
    assert syms[..|syms|] == syms;
  }

  /** Encodes the symbols from the last to the first. */
  method EncodeSymbols(tab: RansTable, syms: seq<nat>) returns (data: seq<byte>)
    requires Fair(tab) && forall k :: 0 <= k < |syms| ==> syms[k] < MAX_SYMS
    ensures data == Packed(EncodeAll(tab, syms))
  {
    hide Sum, EncodeOne, Packed;
    var enc := new RansEncoder(tab);
    assert syms[|syms|..] == [];
    for j := |syms| downto 0
      invariant enc.Value() == EncodeAll(tab, syms[j..]) && InRange(enc.state)
    {
      assert syms[j..][1..] == syms[j + 1..];
      enc.Encode(syms[j]);
    }
    assert syms[0..] == syms;
    data := enc.Finish();
  }

  // ----- writing -----

  method PutFields(bo: BitWriter, s: seq<nat>, n: nat)
    requires bo.Valid() && n <= 16 && forall k :: 0 <= k < |s| ==> s[k] < Pow2(n)
    modifies bo, bo.buf
    ensures bo.Valid() && bo.Stream() == old(bo.Stream()) + Fields(s, n)
  {
    hide Pow2, BitsOf, BitIO.Holds;
    ghost var start := bo.Stream();
    assert Fields(s[..0], n) == [];
    for j := 0 to |s|
      invariant bo.Valid() && bo.Stream() == start + Fields(s[..j], n)
    {
      assert s[..j + 1][..j] == s[..j];
      bo.Put(s[j], n);
    }
    assert s[..|s|] == s;
  }

  method PutPairs(bo: BitWriter, pairs: seq<(nat, nat)>)
    requires bo.Valid() && PairsFit(pairs)
    modifies bo, bo.buf
    ensures bo.Valid() && bo.Stream() == old(bo.Stream()) + PairsBits(pairs)
  {
    hide Pow2, BitsOf, BitIO.Holds, PairsBits, PairsFit;
    ghost var start := bo.Stream();
    NothingYet(pairs);
    for j := 0 to |pairs|
      invariant bo.Valid() && bo.Stream() == start + PairsBits(pairs[..j])
    {
      NextPair(pairs, j);
      bo.Put(pairs[j].0, pairs[j].1);
    }
    assert pairs[..|pairs|] == pairs;
  }

  // ----- the block -----

  lemma SomethingToCount(toks: seq<Token>)
    requires TokensOk(toks)
    ensures Sum(BlockCounts(toks)) > 0
  {
    hide Sum, BlockCounts, EndSyms;
    EndCounted(toks, 0);
    SumAtLeast(BlockCounts(toks), EndSyms()[0]);
  }

  lemma GoodWhenCorrectable(toks: seq<Token>)
    requires TokensOk(toks) && |BlockSyms(toks)| <= 32765
    ensures Sum(BlockCounts(toks)) > 0
    ensures Correctable(BlockCounts(toks)) ==> RansGood(toks)
  {
    hide Sum, BlockSyms, BlockCounts, Normalised, Correctable, Fair, Faithful;
    SomethingToCount(toks);
    NormalisedFair(BlockCounts(toks));
  }

  /**
    * A block whose counts do not normalise cannot be written: a frequency of its table does not fit its 12-bit field, or no
    * bytes at all decode to the block's symbols.
    */
  lemma NotCorrectableLost(toks: seq<Token>)
    requires TokensOk(toks) && Sum(BlockCounts(toks)) > 0 && !Correctable(BlockCounts(toks))
    ensures (exists s :: 0 <= s < MAX_SYMS && BlockTable(toks).freq[s] >= 4096)
            || forall d: Puller :: DecodeMany(BlockTable(toks), d, |BlockSyms(toks)|).0 != BlockSyms(toks)
  {
    hide Sum, Normalised, Correctable, BlockSyms, DecodeMany, Fair;
    var lost := NotCorrectable(BlockCounts(toks));
    var tab, syms := BlockTable(toks), BlockSyms(toks);
    if tab.freq[lost] == 0 {
      var k := CountedSomewhere(syms, lost);
      forall d: Puller ensures DecodeMany(tab, d, |syms|).0 != syms {
        DecodedUsed(tab, d, |syms|, k);
      }
    }
  }

  lemma {:induction false} CountedSomewhere(s: seq<nat>, v: nat) returns (k: nat)
    requires CountOf(s, v) > 0
    ensures k < |s| && s[k] == v
  {
    var n := |s| - 1;
    if s[n] == v {
      k := n;
    } else {
      k := CountedSomewhere(s[..n], v);
    }
  }

  lemma ByteDigits(n: nat)
    requires n < 65536
    ensures n / 256 < Pow2(8) && n % 256 < Pow2(8)
  {
    Pow2Values();
  }

  method PutTwoBytes(bo: BitWriter, n: nat)
    requires bo.Valid() && n < 65536
    modifies bo, bo.buf
    ensures bo.Valid() && bo.Stream() == old(bo.Stream()) + TwoBytes(n)
  {
    hide Pow2, BitsOf, BitIO.Holds;
    ByteDigits(n);
    bo.Put(n / 256, 8);
    bo.Put(n % 256, 8);
  }

  lemma BytesFit(data: seq<byte>)
    ensures forall k :: 0 <= k < |data| ==> data[k] < Pow2(8)
  {
    Pow2Values();
  }

  lemma JoinSix(s: seq<bool>, a: seq<bool>, b: seq<bool>, c: seq<bool>, d: seq<bool>, e: seq<bool>, f: seq<bool>)
    ensures s + a + b + c + d + e + f == s + (a + (b + (c + (d + (e + f)))))
  {
  }

  /** Writes presence bit, sizes, table, rANS bytes and extra bits. */
  method PutBlock(bo: BitWriter, nsyms: nat, tab: RansTable, data: seq<byte>, pairs: seq<(nat, nat)>, ghost toks: seq<Token>)
    requires bo.Valid() && RansGood(toks) && TokensOk(toks) && nsyms == |BlockSyms(toks)| && tab == BlockTable(toks)
    requires data == BlockBytes(toks) && PairsFit(pairs) && PairsBits(pairs) == BlockExtras(toks)
    modifies bo, bo.buf
    ensures bo.Valid() && bo.Stream() == old(bo.Stream()) + RansBits(toks)
  {
    hide Pow2, BitsOf, BitIO.Holds, BitWriter.Stream, BitWriter.BufferValid, TwoBytes, Fields, PairsBits, PairsFit,
         BlockSyms, BlockTable, BlockBytes, BlockExtras, RansGood, TokensOk, RansBits, Pull, Fair;
    GoodShape(toks);
    GoodTable12(toks);
    BlockBytesShape(toks);
    BitFits();
    BytesFit(data);
    PowersAt();
    ghost var s := bo.Stream();
    bo.Put(1, 1);
    PutTwoBytes(bo, nsyms);
    PutTwoBytes(bo, |data|);
    PutFields(bo, tab.freq, 12);
    PutFields(bo, data, 8);
    PutPairs(bo, pairs);
    JoinSix(s, BitsOf(1, 1), TwoBytes(nsyms), TwoBytes(|data|), Fields(tab.freq, 12), Fields(data, 8), PairsBits(pairs));
    RansBitsAre(toks);
  }

  lemma RansBitsAre(toks: seq<Token>)
    requires TokensOk(toks)
    ensures RansBits(toks) == BitsOf(1, 1) + (TwoBytes(|BlockSyms(toks)|) + (TwoBytes(|BlockBytes(toks)|)
                              + (Fields(BlockTable(toks).freq, 12) + (Fields(BlockBytes(toks), 8) + BlockExtras(toks)))))
  {
    hide BitsOf, TwoBytes, Fields, BlockSyms, BlockTable, BlockBytes, BlockExtras;
  }

  /**
    * Writes the buffered block in the rANS format; after the last block a clear bit. Returns false exactly when the
    * counts do not normalise: the compressor would then write a table that does not share out the scale.
    */
  method FlushBlockRans(bo: BitWriter, tb: TokenBuffer, isLast: bool) returns (ok: bool)
    requires bo.Valid() && tb.Valid() && tb.count <= 32000
    requires {tb.ibuf as object, tb.bdFreq, tb.lFreq} !! {bo.buf as object}
    modifies bo, bo.buf, tb`count, tb`toks, tb.bdFreq, tb.lFreq
    ensures TokensOk(old(tb.toks)) && Sum(BlockCounts(old(tb.toks))) > 0 && (ok <==> Correctable(BlockCounts(old(tb.toks))))
    ensures ok ==>
      && bo.Valid() && tb.Blank()
      && RansGood(old(tb.toks)) && TokensOk(old(tb.toks))
      && bo.Stream() == old(bo.Stream()) + (RansBits(old(tb.toks)) + if isLast then BitsOf(0, 1) else [])
  {
    hide Sum, AllEntries, BlockSyms, BlockExtras, Counts, Normalised, Correctable, RansBits, BitIO.Holds, BitWriter.Stream,
         BitWriter.BufferValid, EncodeAll, Packed, Fair, Faithful, Pow2, BitsOf, PairsFit, PairsBits;
    ghost var toks := tb.toks;
    var syms, pairs := Collect(tb.ibuf[..tb.count], toks);
    GoodWhenCorrectable(toks);
    var freqs := CountSyms(syms);
    var tab := BuildTable(freqs);
    if !Correctable(freqs) {
      return false;
    }
    GoodShape(toks);
    var data := EncodeSymbols(tab, syms);
    PutBlock(bo, |syms|, tab, data, pairs, toks);
    tb.Clear();
    if isLast {
      BitFits();
      bo.Put(0, 1);
    }
    ok := true;
  }
}
