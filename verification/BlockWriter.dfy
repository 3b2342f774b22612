/** Writing one block: its two codes, their description, and the buffered tokens in those codes. */
module BlockWriter {
  import opened BitStrings
  import opened Options
  import opened BitIO
  import opened Canonical
  import opened Tables
  import opened Tally
  import opened CodeLengths
  import opened LengthRepair
  import opened TreeRepair
  import opened TreeCode
  import opened TreeWriter
  import opened LzCodes
  import opened UltraFormat
  import opened BlockTokens

  // ----- choosing the code lengths -----

  /** The lengths code every counted symbol in tables that fit. */
  ghost predicate Serves(lengths: seq<nat>, bd: seq<nat>, len: seq<nat>)
  {
    && Lengths(lengths) && Fits(lengths) && |bd| == NUM_BD_SYM && |len| == NUM_LEN_SYM
    && (forall i: nat :: i < NUM_BD_SYM && bd[i] > 0 ==> Used(Bd(lengths), i))
    && (forall i: nat :: i < NUM_LEN_SYM && len[i] > 0 ==> Used(Len(lengths), i))
  }

  lemma DefaultServes(bd: seq<nat>, len: seq<nat>)
    requires |bd| == NUM_BD_SYM && |len| == NUM_LEN_SYM
    ensures Serves(DefaultLengths(), bd, len)
  {
    hide Kraft, Start, DefaultLengths;
    DefaultFacts();
    var d := DefaultLengths();
    TotalIsKraft(Bd(d));
    TotalIsKraft(Len(d));
  }

  lemma GeneratedServes(a: seq<nat>, b: seq<nat>, bd: seq<nat>, len: seq<nat>)
    requires |bd| == NUM_BD_SYM && |len| == NUM_LEN_SYM && FullCode(a, 13) && FullCode(b, 13)
    requires CodedSymbols(bd, a) && CodedSymbols(len, b)
    ensures Serves(a + b, bd, len)
  {
    hide UsedCount, Start;
    assert Bd(a + b) == a && Len(a + b) == b;
    FullTotal(a, 13);
    FullTotal(b, 13);
  }

  lemma LengthTreeSafe(n: nat)
    requires n <= NUM_LEN_SYM
    ensures n * (n - 1 - 13) < Pow2(13)
  {
    Pow2Values();
    if n > 14 {
      MulLe(n, 28, n - 14);
    } else {
      MulLe(n - 14, 0, n);
    }
  }

  /** The depths of the counts' Huffman tree can be cut at 13 and repaired, or there is no tree. */
  ghost predicate HasCode(counts: seq<nat>)
  {
    UsedCount(counts) >= 2 ==> CanRepair(Cut(CodeDepths(counts), 13), 13)
  }

  /** Only a first block with few entries uses the default code. */
  predicate UsesDefault(first: bool, toks: seq<Token>)
    requires TokensOk(toks)
  {
    first && |AllEntries(toks)| < 256
  }

  /** A Huffman block of these tokens gets its codes. */
  ghost predicate HuffmanCodable(first: bool, toks: seq<Token>)
    requires TokensOk(toks)
  {
    UsesDefault(first, toks) || HasCode(BdCounts(toks))
  }

  /** The lengths that the tokens of a block determine. */
  ghost function BlockLengths(first: bool, toks: seq<Token>): Option<seq<nat>>
    requires TokensOk(toks)
  {
    if UsesDefault(first, toks) then Some(DefaultLengths())
    else
      var a, b := TreeLengths(BdCounts(toks), 13), TreeLengths(LenCounts(toks), 13);
      if a.Some? && b.Some? then Some(a.value + b.value) else None
  }

  /** The default code for a small first block, otherwise codes made from the counts. */
  method ChooseLengths(tb: TokenBuffer, first: bool) returns (r: Option<seq<nat>>)
    requires tb.Valid()
    ensures r.Some? ==> Serves(r.value, BdCounts(tb.toks), LenCounts(tb.toks))
    ensures UsesDefault(first, tb.toks) ==> r == Some(DefaultLengths())
    ensures r.Some? <==> HuffmanCodable(first, tb.toks)
    ensures r == BlockLengths(first, tb.toks)
  {
    hide UsedCount, FullCode, CodedSymbols, Serves, DefaultLengths, AllEntries, BlockCounts, CodeDepths, CanRepair, TreeLengths;
    if first && tb.count < 256 {
      var d := new nat[NUM_SYMBOLS](_ => 0);
      FillDefault(d);
      DefaultServes(BdCounts(tb.toks), LenCounts(tb.toks));
      return Some(d[..]);
    }
    Pow2Values();
    var a := TreeGen(tb.bdFreq[..], 13);
    if a.None? {
      return None;
    }
    var b := TreeGen(tb.lFreq[..], 13);
    UsedAtMost(tb.lFreq[..]);
    LengthTreeSafe(UsedCount(tb.lFreq[..]));
    GeneratedServes(a.value, b.value, BdCounts(tb.toks), LenCounts(tb.toks));
    return Some(a.value + b.value);
  }

  // ----- the tokens -----

  lemma TokensCodable(toks: seq<Token>, lengths: seq<nat>)
    requires TokensOk(toks) && Serves(lengths, BdCounts(toks), LenCounts(toks))
    ensures CodableAll(toks, lengths) && EndCodable(lengths)
  {
    hide Used, Fits, BlockCounts;
    forall k | 0 <= k < |toks| ensures Codable(toks[k], lengths) {
      TokenCounted(toks, k, 0);
      if toks[k].Match? {
        TokenCounted(toks, k, 1);
      }
    }
    EndCounted(toks, 0);
    EndCounted(toks, 1);
  }

  lemma {:induction false} AppendBits(toks: seq<Token>, tok: Token, lengths: seq<nat>)
    requires |lengths| == NUM_SYMBOLS && CodableAll(toks, lengths) && Codable(tok, lengths)
    ensures CodableAll(toks + [tok], lengths)
    ensures TokensBits(toks + [tok], lengths) == TokensBits(toks, lengths) + TokenBits(tok, lengths)
  {
    hide Codable, TokenBits;
    if toks == [] {
      assert [tok][1..] == [];
    } else {
      AppendBits(toks[1..], tok, lengths);
      assert (toks + [tok])[1..] == toks[1..] + [tok];
    }
  }

  /** A symbol's extra bits, or none. */
  method PutExtra(bo: BitWriter, extra: nat, nbits: nat)
    requires bo.Valid() && nbits <= 16 && extra < Pow2(nbits)
    modifies bo, bo.buf
    ensures bo.Valid() && bo.Stream() == old(bo.Stream()) + BitsOf(extra, nbits)
  {
    if nbits > 0 {
      bo.Put(extra, nbits);
    }
  }

  method PutDist(bo: BitWriter, codes: seq<nat>, lengths: seq<nat>, ibuf: seq<nat>, i: nat, ghost d: nat) returns (j: nat)
    requires bo.Valid() && |lengths| == NUM_SYMBOLS && CodesOf(codes, Bd(lengths)) && 1 <= d <= EOB_MARK
    requires Used(Bd(lengths), NUM_BYTE_SYM + DistSym(d))
    requires i + |DistEntries(d)| <= |ibuf| && ibuf[i..i + |DistEntries(d)|] == DistEntries(d)
    modifies bo, bo.buf
    ensures bo.Valid() && bo.Stream() == old(bo.Stream()) + DistCode(lengths, d) && j == i + |DistEntries(d)|
  {
    hide Pow2, BitsOf, CodeBits, BitIO.Holds, BitWriter.Stream, BitWriter.BufferValid, CodesOf;
    DistSymRange(d);
    EntryAt(ibuf, i, DistEntries(d));
    var dsym := ibuf[i] - 256;
    ghost var s0 := bo.Stream();
    PutCode(bo, codes, Bd(lengths), NUM_BYTE_SYM + dsym);
    j := i + 1;
    if DistBits(dsym) > 0 {
      PutExtra(bo, ibuf[j], DistBits(dsym));
      j := j + 1;
    } else {
      NoExtra(d - DistBase(dsym), s0, CodeBits(Bd(lengths), NUM_BYTE_SYM + dsym));
    }
  }

  lemma EntryAt(ibuf: seq<nat>, i: nat, e: seq<nat>)
    requires 1 <= |e| && i + |e| <= |ibuf| && ibuf[i..i + |e|] == e
    ensures ibuf[i] == e[0] && (|e| > 1 ==> ibuf[i + 1] == e[1]) && (|e| > 2 ==> ibuf[i + 2] == e[2])
  {
    assert ibuf[i..i + |e|][0] == ibuf[i];
    assert |e| > 1 ==> ibuf[i..i + |e|][1] == ibuf[i + 1];
    assert |e| > 2 ==> ibuf[i..i + |e|][2] == ibuf[i + 2];
  }

  lemma NoExtra(v: nat, s: seq<bool>, c: seq<bool>)
    ensures s + c == s + (c + BitsOf(v, 0))
  {
  }

  method PutLen(bo: BitWriter, codes: seq<nat>, lengths: seq<nat>, len: nat)
    requires bo.Valid() && |lengths| == NUM_SYMBOLS && CodesOf(codes, Len(lengths)) && MIN_MATCH <= len <= MAX_COPY
    requires Used(Len(lengths), LenSym(len))
    modifies bo, bo.buf
    ensures bo.Valid() && bo.Stream() == old(bo.Stream()) + LenCode(lengths, len)
  {
    hide Pow2, BitsOf, CodeBits, BitIO.Holds, BitWriter.Stream, BitWriter.BufferValid, CodesOf;
    LenSymRange(len);
    var lsym := FindLenSym(len);
    ghost var s0 := bo.Stream();
    PutCode(bo, codes, Len(lengths), lsym);
    if LenBits(lsym) > 0 {
      PutExtra(bo, len - LenBase(lsym), LenBits(lsym));
    } else {
      NoExtra(len - LenBase(lsym), s0, CodeBits(Len(lengths), lsym));
    }
  }

  /** Writes one buffered token and returns the index of the next. */
  method PutToken(bo: BitWriter, bdCodes: seq<nat>, lCodes: seq<nat>, lengths: seq<nat>, ibuf: seq<nat>, i: nat, ghost tok: Token)
    returns (j: nat)
    requires bo.Valid() && |lengths| == NUM_SYMBOLS && CodesOf(bdCodes, Bd(lengths)) && CodesOf(lCodes, Len(lengths))
    requires TokenOk(tok) && Codable(tok, lengths) && i + |Entries(tok)| <= |ibuf| && ibuf[i..i + |Entries(tok)|] == Entries(tok)
    modifies bo, bo.buf
    ensures bo.Valid() && bo.Stream() == old(bo.Stream()) + TokenBits(tok, lengths) && j == i + |Entries(tok)|
  {
    hide DistEntries, CodeBits, BitIO.Holds, BitWriter.Stream, BitWriter.BufferValid, CodesOf, DistCode, LenCode;
    assert ibuf[i] == ibuf[i..i + |Entries(tok)|][0];
    KindAt(tok);
    var val := ibuf[i];
    if val < 256 {
      PutCode(bo, bdCodes, Bd(lengths), val);
      return i + 1;
    }
    LengthEntry(tok, ibuf, i);
    j := PutDist(bo, bdCodes, lengths, ibuf, i, tok.dist);
    PutLen(bo, lCodes, lengths, ibuf[j]);
    j := j + 1;
  }

  /** Bytes and distance symbols do not overlap. */
  lemma KindAt(tok: Token)
    requires TokenOk(tok)
    ensures Entries(tok)[0] < 256 <==> tok.Literal?
    ensures tok.Literal? ==> Entries(tok) == [tok.b as nat]
  {
  }

  lemma LengthEntry(tok: Token, ibuf: seq<nat>, i: nat)
    requires TokenOk(tok) && tok.Match? && i + |Entries(tok)| <= |ibuf| && ibuf[i..i + |Entries(tok)|] == Entries(tok)
    ensures var n := |DistEntries(tok.dist)|;
            |Entries(tok)| == n + 1 && ibuf[i..i + n] == DistEntries(tok.dist) && ibuf[i + n] == tok.len
  {
    hide DistEntries;
    var n := |DistEntries(tok.dist)|;
    assert ibuf[i..i + n] == ibuf[i..i + n + 1][..n];
    assert ibuf[i + n] == ibuf[i..i + n + 1][n];
  }

  lemma FirstEntries(toks: seq<Token>, k: nat, ibuf: seq<nat>, i: nat)
    requires TokensOk(toks) && k < |toks| && i <= |ibuf| && ibuf[i..] == AllEntries(toks[k..])
    ensures var tok := toks[k];
            && i + |Entries(tok)| <= |ibuf| && ibuf[i..i + |Entries(tok)|] == Entries(tok)
            && ibuf[i + |Entries(tok)|..] == AllEntries(toks[k + 1..])
  {
    hide Entries;
    var n := |Entries(toks[k])|;
    assert toks[k..][1..] == toks[k + 1..];
    assert ibuf[i..][..n] == ibuf[i..i + n];
    assert ibuf[i..][n..] == ibuf[i + n..];
  }

  lemma NoEntries(toks: seq<Token>, k: nat)
    requires TokensOk(toks) && k <= |toks|
    ensures AllEntries(toks[k..]) == [] <==> k == |toks|
  {
  }

  /** Writes all buffered tokens. */
  method PutTokens(bo: BitWriter, bdCodes: seq<nat>, lCodes: seq<nat>, lengths: seq<nat>, ibuf: seq<nat>, ghost toks: seq<Token>)
    requires bo.Valid() && |lengths| == NUM_SYMBOLS && CodesOf(bdCodes, Bd(lengths)) && CodesOf(lCodes, Len(lengths))
    requires TokensOk(toks) && CodableAll(toks, lengths) && ibuf == AllEntries(toks)
    modifies bo, bo.buf
    ensures bo.Valid() && bo.Stream() == old(bo.Stream()) + TokensBits(toks, lengths)
  {
    hide Entries, AllEntries, BitWriter.Stream, CodesOf, TokenBits, Codable, TokensBits, BitIO.Holds, BitWriter.BufferValid;
    ghost var start := bo.Stream();
    ghost var k: nat := 0;
    var i := 0;
    assert toks[0..] == toks;
    NoBits(lengths, start, toks);
    while i < |ibuf|
      invariant i <= |ibuf| && k <= |toks| && ibuf[i..] == AllEntries(toks[k..])
      invariant bo.Valid() && CodableAll(toks[..k], lengths) && bo.Stream() == start + TokensBits(toks[..k], lengths)
    {
      NoEntries(toks, k);
      FirstEntries(toks, k, ibuf, i);
      AppendBits(toks[..k], toks[k], lengths);
      assert toks[..k + 1] == toks[..k] + [toks[k]];
      i := PutToken(bo, bdCodes, lCodes, lengths, ibuf, i, toks[k]);
      k := k + 1;
    }
    NoEntries(toks, k);
    assert toks[..k] == toks;
  }

  lemma NoBits(lengths: seq<nat>, start: seq<bool>, toks: seq<Token>)
    requires |lengths| == NUM_SYMBOLS
    ensures CodableAll(toks[..0], lengths) && start == start + TokensBits(toks[..0], lengths)
  {
  }

  /** Writes the distance no match uses, with length 3. */
  method PutEnd(bo: BitWriter, bdCodes: seq<nat>, lCodes: seq<nat>, lengths: seq<nat>)
    requires bo.Valid() && |lengths| == NUM_SYMBOLS && CodesOf(bdCodes, Bd(lengths)) && CodesOf(lCodes, Len(lengths))
    requires EndCodable(lengths)
    modifies bo, bo.buf
    ensures bo.Valid() && bo.Stream() == old(bo.Stream()) + EndBits(lengths)
  {
    hide Pow2, BitsOf, CodeBits, BitIO.Holds, BitWriter.Stream, BitWriter.BufferValid, CodesOf;
    DistSymRange(EOB_MARK);
    var dsym := FindDistSym(EOB_MARK);
    ghost var s0 := bo.Stream();
    PutCode(bo, bdCodes, Bd(lengths), NUM_BYTE_SYM + dsym);
    PutExtra(bo, EOB_MARK - DistBase(dsym), DistBits(dsym));
    ghost var s1 := bo.Stream();
    PutCode(bo, lCodes, Len(lengths), 0);
    LengthThree(lengths, s1);
  }

  lemma LengthThree(lengths: seq<nat>, s: seq<bool>)
    requires |lengths| == NUM_SYMBOLS && Used(Len(lengths), 0)
    ensures LenSym(MIN_MATCH) == 0 && s + LenCode(lengths, MIN_MATCH) == s + CodeBits(Len(lengths), 0)
  {
    hide CodeBits;
    LenEnc(0);
  }

  // ----- the block -----

  lemma ServesShape(lengths: seq<nat>, bd: seq<nat>, len: seq<nat>)
    requires Serves(lengths, bd, len)
    ensures Lengths(lengths) && |lengths| == NUM_SYMBOLS && Fits(lengths)
  {
    hide Used;
  }

  lemma MakeBlock(lengths: seq<nat>, tl: seq<nat>, toks: seq<Token>, prev: seq<nat>)
    requires Lengths(lengths) && |lengths| == NUM_SYMBOLS && Fits(lengths) && CodableAll(toks, lengths) && EndCodable(lengths)
    requires Lengths(prev) && Describing(tl, lengths, prev)
    ensures var b := Block(lengths, tl, toks);
            && GoodBlock(b, prev)
            && BlockBits(b, prev) == BitsOf(1, 1) + (TreeBits(lengths, prev, tl) + (TokensBits(toks, lengths) + EndBits(lengths)))
  {
    hide Lengths, Fits, EndCodable, Describing, Codable, TreeBits, TokensBits, EndBits, BitsOf;
  }

  lemma JoinFour(s: seq<bool>, a: seq<bool>, b: seq<bool>, c: seq<bool>, d: seq<bool>)
    ensures s + a + b + c + d == s + (a + (b + (c + d)))
  {
  }

  /** Writes the body of a block: the tokens and the end mark in the block's codes. */
  method PutBody(bo: BitWriter, tb: TokenBuffer, lengths: seq<nat>)
    requires bo.Valid() && tb.Valid() && |lengths| == NUM_SYMBOLS && Fits(lengths)
    requires CodableAll(tb.toks, lengths) && EndCodable(lengths)
    modifies bo, bo.buf
    ensures bo.Valid() && bo.Stream() == old(bo.Stream()) + TokensBits(tb.toks, lengths) + EndBits(lengths)
  {
    hide Start, CodesOf, AllEntries, TokensBits, EndBits, CodableAll, EndCodable, BitWriter.Stream, BitWriter.BufferValid, BitIO.Holds,
         BlockCounts;
    var bdCodes := MakeCodes(Bd(lengths));
    var lCodes := MakeCodes(Len(lengths));
    PutTokens(bo, bdCodes, lCodes, lengths, tb.ibuf[..tb.count], tb.toks);
    PutEnd(bo, bdCodes, lCodes, lengths);
  }

  /** The block's description is in the code that its lengths and the previous ones determine. */
  ghost predicate DescribedBy(b: Block, prev: seq<nat>)
  {
    Lengths(b.lengths) && Lengths(prev) && Some(b.tl) == DescriptionOf(b.lengths, prev)
  }

  lemma DescribedSo(b: Block, prev: seq<nat>)
    requires Lengths(b.lengths) && Lengths(prev) && Some(b.tl) == DescriptionOf(b.lengths, prev)
    ensures DescribedBy(b, prev)
  {
  }

  /**
    * Writes the buffered block: presence bit, tree description, tokens, end mark; after the last block a clear bit.
    * Fails exactly if the repair loop finds no code of at most 13 bits for these tokens.
    */
  method FlushBlock(bo: BitWriter, tb: TokenBuffer, symprev: array<nat>, first: bool, isLast: bool) returns (ok: bool, ghost b: Block)
    requires bo.Valid() && tb.Valid()
    requires symprev.Length == NUM_SYMBOLS && Lengths(symprev[..])
    requires {tb.ibuf as object, tb.bdFreq, tb.lFreq} !! {symprev as object, bo.buf}
    modifies bo, bo.buf, symprev, tb`count, tb`toks, tb.bdFreq, tb.lFreq
    ensures TokensOk(old(tb.toks)) && (ok <==> HuffmanCodable(first, old(tb.toks)))
    ensures ok ==>
      && bo.Valid() && tb.Blank()
      && GoodBlock(b, old(symprev[..])) && b.toks == old(tb.toks) && symprev[..] == b.lengths
      && Some(b.lengths) == BlockLengths(first, b.toks) && DescribedBy(b, old(symprev[..]))
      && bo.Stream() == old(bo.Stream()) + (BlockBits(b, old(symprev[..])) + if isLast then BitsOf(0, 1) else [])
  {
    hide UsedCount, Sum, AllEntries, BlockCounts, Serves, CodableAll, EndCodable, Describing, TreeBits, BitIO.Holds,
         TokensBits, EndBits, BitWriter.Stream, BitWriter.BufferValid, Fits, Lengths, Kraft, Start, BitsOf, Pow2, GoodBlock, BlockBits,
         HuffmanCodable, TokensOk, TokenBuffer.Valid, TokenBuffer.Blank, DefaultLengths, BlockLengths, DescriptionOf, DescribedBy;
    ValidTokens(tb);
    b := Block([], [], []);
    var r := ChooseLengths(tb, first);
    if r.None? {
      return false, b;
    }
    var lengths := r.value;
    ghost var prev, start := symprev[..], bo.Stream();
    ServesShape(lengths, BdCounts(tb.toks), LenCounts(tb.toks));
    TokensCodable(tb.toks, lengths);
    BitFits();
    bo.Put(1, 1);
    assert symprev[..] == prev;
    ghost var tl := TreeEnc(bo, lengths, symprev);
    PutBody(bo, tb, lengths);
    MakeBlock(lengths, tl, tb.toks, prev);
    DescribedSo(Block(lengths, tl, tb.toks), prev);
    b := Block(lengths, tl, tb.toks);
    JoinFour(start, BitsOf(1, 1), TreeBits(lengths, prev, tl), TokensBits(tb.toks, lengths), EndBits(lengths));
    tb.Clear();
    if isLast {
      bo.Put(0, 1);
    }
    ok := true;
  }

  lemma ValidTokens(tb: TokenBuffer)
    requires tb.Valid()
    ensures TokensOk(tb.toks)
  {
  }

  lemma BitFits()
    ensures 0 < Pow2(1) && 1 < Pow2(1)
  {
  }
}
