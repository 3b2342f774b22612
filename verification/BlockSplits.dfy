/** How a compressed text is cut into blocks, and which texts never meet a block without a code. */
module BlockSplits {
  import opened BitStrings
  import opened Tally
  import opened Tables
  import opened LzCodes
  import opened BlockTokens
  import opened TextCover
  import opened UltraFormat
  import opened BlockWriter
  import opened CodeLimits
  import opened CrowdedBlocks
  import opened Rans
  import opened RansWriter

  const FLUSH_AT := 27000

  // ----- blocks with and without a code -----

  /** The coder finds a table for a block of these tokens. */
  ghost predicate BlockCodable(rans: bool, first: bool, toks: seq<Token>)
    requires TokensOk(toks)
  {
    if rans then SomethingToCount(toks); Correctable(BlockCounts(toks)) else HuffmanCodable(first, toks)
  }

  ghost predicate CodedBlock(rans: bool, first: bool, b: Block)
  {
    TokensOk(b.toks) && BlockCodable(rans, first, b.toks)
  }

  ghost predicate CodedBlocks(rans: bool, bs: seq<Block>)
  {
    forall k :: 0 <= k < |bs| ==> CodedBlock(rans, k == 0, bs[k])
  }

  /** A block is closed once its tokens take more than 27000 entries. */
  ghost predicate FullBlocks(bs: seq<Block>)
  {
    forall k :: 0 <= k < |bs| ==> TokensOk(bs[k].toks) && |AllEntries(bs[k].toks)| > FLUSH_AT
  }

  /** The blocks replay the data behind the master; each has a code, and each but the last was full. */
  ghost predicate Split(rans: bool, bs: seq<Block>, master: seq<byte>, data: seq<byte>)
  {
    && bs != [] && CodedBlocks(rans, bs) && FullBlocks(bs[..|bs| - 1])
    && Covers(BlocksTokens(bs), master + data, |master|, |master + data|)
  }

  /** The blocks and then toks replay the data behind the master, up to where the block of toks is full or the data ends; it has no code. */
  ghost predicate StuckSplit(rans: bool, bs: seq<Block>, toks: seq<Token>, master: seq<byte>, data: seq<byte>)
  {
    && CodedBlocks(rans, bs) && FullBlocks(bs) && TokensOk(toks) && !BlockCodable(rans, bs == [], toks)
    && exists pos :: StopsAt(bs, toks, master + data, |master|, pos)
  }

  ghost predicate StopsAt(bs: seq<Block>, toks: seq<Token>, text: seq<byte>, base: nat, pos: nat)
    requires TokensOk(toks)
  {
    Covers(BlocksTokens(bs) + toks, text, base, pos) && (|AllEntries(toks)| > FLUSH_AT || pos == |text|)
  }

  lemma OneMoreBlock(rans: bool, bs: seq<Block>, b: Block)
    requires CodedBlocks(rans, bs) && CodedBlock(rans, bs == [], b)
    ensures CodedBlocks(rans, bs + [b])
  {
    hide CodedBlock;
  }

  lemma OneMoreFull(bs: seq<Block>, b: Block)
    requires FullBlocks(bs) && TokensOk(b.toks) && |AllEntries(b.toks)| > FLUSH_AT
    ensures FullBlocks(bs + [b])
  {
  }

  /** A full block that is stuck, wherever the text goes on. */
  ghost predicate FullStuck(rans: bool, bs: seq<Block>, toks: seq<Token>, text: seq<byte>, base: nat)
  {
    && CodedBlocks(rans, bs) && FullBlocks(bs) && TokensOk(toks) && !BlockCodable(rans, bs == [], toks) && |AllEntries(toks)| > FLUSH_AT
    && exists pos :: Covers(BlocksTokens(bs) + toks, text, base, pos)
  }

  lemma StuckWithMore(rans: bool, bs: seq<Block>, toks: seq<Token>, text: seq<byte>, more: seq<byte>, master: seq<byte>, data: seq<byte>)
    requires FullStuck(rans, bs, toks, text, |master|) && text + more == master + data
    ensures StuckSplit(rans, bs, toks, master, data)
  {
    hide Covers, CodedBlocks, FullBlocks, TokensOk, BlockCodable, AllEntries;
    var pos :| Covers(BlocksTokens(bs) + toks, text, |master|, pos);
    CoversMore(BlocksTokens(bs) + toks, text, more, |master|, pos);
    assert StopsAt(bs, toks, master + data, |master|, pos);
  }

  // ----- from the blocks to the text -----

  lemma {:induction false} TokensOfBlocks(bs: seq<Block>)
    requires FullBlocks(bs)
    ensures TokensOk(BlocksTokens(bs)) && (bs != [] ==> |AllEntries(BlocksTokens(bs))| > FLUSH_AT)
  {
    hide AllEntries, TokenOk;
    if bs != [] {
      TokensOfBlocks(bs[1..]);
      EntriesConcat(bs[0].toks, BlocksTokens(bs[1..]));
    }
  }

  lemma {:induction false} EntriesConcat(a: seq<Token>, b: seq<Token>)
    requires TokensOk(a) && TokensOk(b)
    ensures TokensOk(a + b) && |AllEntries(a + b)| == |AllEntries(a)| + |AllEntries(b)|
  {
    hide Entries, TokenOk;
    if a == [] {
      assert a + b == b;
    } else {
      assert (a + b)[1..] == a[1..] + b;
      EntriesConcat(a[1..], b);
    }
  }

  /** Short data is one block. */
  lemma ShortData(bs: seq<Block>, toks: seq<Token>, text: seq<byte>, base: nat, pos: nat)
    requires FullBlocks(bs) && TokensOk(toks) && Covers(BlocksTokens(bs) + toks, text, base, pos) && |text| - base <= FLUSH_AT
    ensures bs == [] && Covers(toks, text, base, pos)
  {
    hide AllEntries, TokensOk, Covers, FullBlocks;
    TokensOfBlocks(bs);
    EntriesConcat(BlocksTokens(bs), toks);
    NoMoreEntries(BlocksTokens(bs) + toks, text, base, pos);
    CoversBounds(BlocksTokens(bs) + toks, text, base, pos);
    if bs == [] {
      assert BlocksTokens(bs) + toks == toks;
    }
  }

  // ----- texts that never get stuck -----

  /** The different bytes of the data. */
  function ByteValues(data: seq<byte>): set<nat>
  {
    set k | 0 <= k < |data| :: data[k] as nat
  }

  /** Short data, or data of few different bytes; the bounds are those of the coder. */
  predicate Easy(rans: bool, data: seq<byte>)
  {
    if rans then |data| <= 4094 || |ByteValues(data)| <= 38 else |data| <= 985 || |ByteValues(data)| <= 131
  }

  lemma {:induction false} CountedLiteral(toks: seq<Token>, v: byte)
    requires TokensOk(toks) && BlockCounts(toks)[v] > 0
    ensures Literal(v) in toks
  {
    hide EndSyms, DistSym, LenSym;
    if toks == [] {
      OfEnd(v);
    } else {
      CountConcat(Syms(toks[0]), BlockSyms(toks[1..]), v);
      if toks[0].Literal? {
        OfOne(toks[0].b);
      } else {
        OfTwo(NUM_BYTE_SYM + DistSym(toks[0].dist), FIRST_LEN + LenSym(toks[0].len));
      }
      if toks[0] != Literal(v) {
        CountedLiteral(toks[1..], v);
        assert toks == [toks[0]] + toks[1..];
      }
    }
  }

  lemma OfEnd(v: byte)
    ensures CountOf(EndSyms(), v) == 0
  {
    EndSymsAre();
    OfTwo(315, 316);
  }

  lemma LiteralsOfBlocks(bs: seq<Block>, toks: seq<Token>, text: seq<byte>, base: nat, pos: nat, b: byte)
    requires FullBlocks(bs) && TokensOk(toks) && Covers(BlocksTokens(bs) + toks, text, base, pos) && Literal(b) in toks
    ensures base <= pos <= |text| && b in text[base..pos]
  {
    hide AllEntries, TokensOk, Covers, FullBlocks;
    TokensOfBlocks(bs);
    EntriesConcat(BlocksTokens(bs), toks);
    LiteralsInText(BlocksTokens(bs) + toks, text, base, pos, b);
  }

  /** A block has no more different bytes than the data. */
  lemma BytesUsed(bs: seq<Block>, toks: seq<Token>, master: seq<byte>, data: seq<byte>, pos: nat)
    requires FullBlocks(bs) && TokensOk(toks) && Covers(BlocksTokens(bs) + toks, master + data, |master|, pos)
    ensures UsedCount(BlockCounts(toks)[..NUM_BYTE_SYM]) <= |ByteValues(data)|
  {
    hide FullBlocks, TokensOk, Covers, UsedCount, BlockCounts;
    forall i: nat | i < NUM_BYTE_SYM && BlockCounts(toks)[..NUM_BYTE_SYM][i] > 0 ensures i in ByteValues(data) {
      var b: byte := i;
      CountedLiteral(toks, b);
      LiteralsOfBlocks(bs, toks, master + data, |master|, pos, b);
      InData(master, data, pos, b);
    }
    UsedWithin(BlockCounts(toks)[..NUM_BYTE_SYM], ByteValues(data));
  }

  lemma InData(master: seq<byte>, data: seq<byte>, pos: nat, b: byte)
    requires |master| <= pos <= |master + data| && b in (master + data)[|master|..pos]
    ensures b in ByteValues(data)
  {
    var k :| 0 <= k < pos - |master| && (master + data)[|master|..pos][k] == b;
    assert data[k] == b;
  }

  lemma {:induction false} CountsTotal(s: seq<nat>)
    requires forall k :: 0 <= k < |s| ==> s[k] < NUM_SYMBOLS
    ensures Sum(Counts(s)) == |s|
  {
    hide Sum;
    if s == [] {
      assert Counts(s) == seq(NUM_SYMBOLS, _ => 0);
      ZeroSum(NUM_SYMBOLS);
    } else {
      var n := |s| - 1;
      CountsTotal(s[..n]);
      CountStep(s[..n], Counts(s[..n]), s[n]);
      assert s[..n] + [s[n]] == s;
      SumUpdate(Counts(s[..n]), s[n], Counts(s[..n])[s[n]] + 1);
    }
  }

  /** Occurrences of bytes, distances and lengths together are the symbols of the block. */
  lemma CountsSplit(toks: seq<Token>)
    requires TokensOk(toks)
    ensures Sum(BlockCounts(toks)) == |BlockSyms(toks)|
    ensures Sum(BdCounts(toks)) + 1 <= |BlockSyms(toks)|
    ensures UsedCount(BdCounts(toks)) <= UsedCount(BlockCounts(toks)[..NUM_BYTE_SYM]) + 60
    ensures UsedCount(BlockCounts(toks)) <= UsedCount(BlockCounts(toks)[..NUM_BYTE_SYM]) + 88
  {
    hide Sum, UsedCount, BlockSyms, EndSyms;
    var c := BlockCounts(toks);
    CountsTotal(BlockSyms(toks));
    EndSymsAre();
    EndCounted(toks, 1);
    SumSplit(c, NUM_BD_SYM);
    SumAtLeast(c[NUM_BD_SYM..], 0);
    assert c == c[..NUM_BD_SYM] + c[NUM_BD_SYM..];
    UsedConcat(c[..NUM_BD_SYM], c[NUM_BD_SYM..]);
    UsedAtMost(c[NUM_BD_SYM..]);
    assert c[..NUM_BD_SYM] == c[..NUM_BYTE_SYM] + c[NUM_BYTE_SYM..NUM_BD_SYM];
    UsedConcat(c[..NUM_BYTE_SYM], c[NUM_BYTE_SYM..NUM_BD_SYM]);
    UsedAtMost(c[NUM_BYTE_SYM..NUM_BD_SYM]);
  }

  lemma {:induction false} SumSplit(f: seq<nat>, n: nat)
    requires n <= |f|
    ensures Sum(f) == Sum(f[..n]) + Sum(f[n..])
  {
    if |f| == n {
      assert f[..n] == f;
    } else {
      var m := |f| - 1;
      SumSplit(f[..m], n);
      assert f[..m][..n] == f[..n] && f[..m][n..] == f[n..][..m - n];
    }
  }

  /** Easy data never meets a block without a code. */
  lemma EasyNotStuck(rans: bool, bs: seq<Block>, toks: seq<Token>, master: seq<byte>, data: seq<byte>)
    requires StuckSplit(rans, bs, toks, master, data)
    ensures !Easy(rans, data)
  {
    hide Covers, FullBlocks, CodedBlocks, Sum, UsedCount, BlockCounts, BlockSyms, TokensOk, ByteValues, AllEntries, Correctable;
    var pos :| StopsAt(bs, toks, master + data, |master|, pos);
    BytesUsed(bs, toks, master, data, pos);
    CountsSplit(toks);
    if |data| <= FLUSH_AT {
      ShortData(bs, toks, master + data, |master|, pos);
      NoMoreEntries(toks, master + data, |master|, pos);
      CoversBounds(toks, master + data, |master|, pos);
    }
    if rans {
      RansNotStuck(toks);
    } else {
      NoCodeWide(BdCounts(toks));
      NoCodeHeavy(BdCounts(toks));
    }
  }

  lemma RansNotStuck(toks: seq<Token>)
    requires TokensOk(toks) && !BlockCodable(true, false, toks)
    ensures Sum(BlockCounts(toks)) > 4096 && UsedCount(BlockCounts(toks)) > 126
  {
    hide Sum, UsedCount, BlockCounts, TokensOk, Correctable;
    SomethingToCount(toks);
    if Sum(BlockCounts(toks)) <= 4096 {
      ShortBlockCorrectable(BlockCounts(toks));
    }
    if UsedCount(BlockCounts(toks)) <= 126 {
      FewSymbolsCorrectable(BlockCounts(toks));
    }
  }

  // ----- a text that always gets stuck -----

  /** The text of 127 frequent bytes for Huffman blocks, of 90 for rANS blocks. */
  function HardText(rans: bool): (s: seq<byte>)
    ensures |s| == if rans then 8280 else 16383
  {
    CrowdedText(if rans then 90 else 127)
  }

  lemma HardBlock(rans: bool)
    ensures var toks := Literals(HardText(rans)); |AllEntries(toks)| == |HardText(rans)| && !BlockCodable(rans, true, toks)
  {
    hide BlockCounts, CrowdedText, HasCode, Correctable;
    LiteralEntries(HardText(rans));
    if rans {
      CrowdedNotCorrectable();
    } else {
      CrowdedHasNoCode();
    }
  }

  lemma {:induction false} LiteralEntries(s: seq<byte>)
    ensures |AllEntries(Literals(s))| == |s|
  {
    if s != [] {
      LiteralEntries(s[1..]);
      assert Literals(s)[1..] == Literals(s[1..]);
    }
  }

  /** No split of the hard text has codes for all its blocks, whatever the matches tried. */
  lemma HardNotSplit(rans: bool, bs: seq<Block>)
    ensures !Split(rans, bs, [], HardText(rans))
  {
    hide Covers, BlockCodable, HardText, AllEntries;
    if Split(rans, bs, [], HardText(rans)) {
      var n := |bs| - 1;
      var last := bs[n].toks;
      assert CodedBlock(rans, n == 0, bs[n]);
      assert [] + HardText(rans) == HardText(rans);
      BlocksOfLast(bs);
      ShortData(bs[..n], last, HardText(rans), 0, |HardText(rans)|);
      HardLiterals(rans, last);
      HardBlock(rans);
    }
  }

  lemma {:induction false} BlocksOfLast(bs: seq<Block>)
    requires bs != []
    ensures BlocksTokens(bs) == BlocksTokens(bs[..|bs| - 1]) + bs[|bs| - 1].toks
  {
    if |bs| > 1 {
      BlocksOfLast(bs[1..]);
      assert bs[1..][..|bs| - 2] == bs[..|bs| - 1][1..];
    }
  }

  lemma HardLiterals(rans: bool, toks: seq<Token>)
    requires TokensOk(toks) && Covers(toks, HardText(rans), 0, |HardText(rans)|)
    ensures toks == Literals(HardText(rans))
  {
    hide Covers, CrowdedText, NoRepeats;
    var text := HardText(rans);
    CrowdedTextRepeatsNothing(if rans then 90 else 127);
    OnlyLiterals(toks, text, 0, |text|);
    assert text[0..|text|] == text;
  }
}
