/** Decoding what the compressor wrote gives the compressor's tokens back. */
module UltraRoundTrip {
  import opened BitStrings
  import opened Options
  import opened Canonical
  import opened Tables
  import opened TreeCode
  import opened LzCodes
  import opened UltraFormat

  /** t holds b at p with room for a lookup after it. */
  ghost predicate Room(t: seq<bool>, p: nat, b: seq<bool>)
  {
    HasBits(t, p, b) && p + |b| + MAX_CODE_BITS <= |t|
  }

  lemma RoomSplit(t: seq<bool>, p: nat, a: seq<bool>, b: seq<bool>)
    requires Room(t, p, a + b)
    ensures Room(t, p, a) && Room(t, p + |a|, b)
  {
    HasBitsSplit(t, p, a, b);
  }

  lemma ExtraRead(c: Code, v: nat, t: seq<bool>, p: nat)
    requires c.value <= v < c.value + Pow2(c.extra) && HasBits(t, p, BitsOf(v - c.value, c.extra))
    ensures WithExtra(c, t, p) == Got(v, p + c.extra)
  {
    ReadAtBits(t, p, v - c.value, c.extra);
  }

  /** A distance's code word and extra bits are read back, up to the length lookup. */
  lemma DistRead(lengths: seq<nat>, d: nat, t: seq<bool>, p: nat)
    requires |lengths| == NUM_SYMBOLS && Fits(lengths) && 1 <= d <= EOB_MARK
    requires Used(Bd(lengths), NUM_BYTE_SYM + DistSym(d)) && Room(t, p, DistCode(lengths, d))
    ensures var tabs := BlockTables(lengths);
            var w := Lookup(tabs.bd, t, p);
            && 0 <= w && tabs.bd[w].code.isDist
            && WithExtra(tabs.bd[w].code, t, p + tabs.bd[w].len) == Got(d, p + |DistCode(lengths, d)|)
  {
    hide Table, CodeBits, WithExtra, Lookup, BitsOf, Pow2, DistSym, Fits;
    var ds := DistSym(d);
    var i := NUM_BYTE_SYM + ds;
    var c := BdCodes()[i];
    DistSymRange(d);
    DCodes(ds);
    FitsLen(lengths);
    assert c == Code(DistBase(ds), DistBits(ds), true);
    RoomSplit(t, p, CodeBits(Bd(lengths), i), BitsOf(d - DistBase(ds), DistBits(ds)));
    LookupCode(Bd(lengths), BdCodes(), i, t, p);
    ExtraRead(c, d, t, p + Bd(lengths)[i]);
  }

  lemma FitsLen(lengths: seq<nat>)
    requires |lengths| == NUM_SYMBOLS && Fits(lengths)
    ensures Total(Len(lengths)) <= LOOKUP_SIZE && Total(Bd(lengths)) <= LOOKUP_SIZE
    ensures BlockTables(lengths).len == Table(Len(lengths), LenCodes()) && BlockTables(lengths).bd == Table(Bd(lengths), BdCodes())
  {
    hide Table, Start;
  }

  lemma LenLookup(lengths: seq<nat>, l: nat, t: seq<bool>, p: nat)
    requires |lengths| == NUM_SYMBOLS && Fits(lengths) && MIN_MATCH <= l <= MAX_COPY
    requires Used(Len(lengths), LenSym(l)) && Room(t, p, LenCode(lengths, l))
    ensures var tabs := BlockTables(lengths);
            var w := Lookup(tabs.len, t, p);
            && 0 <= w && WithExtra(tabs.len[w].code, t, p + tabs.len[w].len) == Got(l, p + |LenCode(lengths, l)|)
            && tabs.len[w].len == Len(lengths)[LenSym(l)]
  {
    hide Table, CodeBits, WithExtra, Lookup, BitsOf, Pow2, LenSym, Fits;
    var ls := LenSym(l);
    LenSymRange(l);
    LenEnc(ls);
    var c := LenCodes()[ls];
    assert c == Code(LenBase(ls), LenBits(ls), false);
    FitsLen(lengths);
    RoomSplit(t, p, CodeBits(Len(lengths), ls), BitsOf(l - LenBase(ls), LenBits(ls)));
    LookupCode(Len(lengths), LenCodes(), ls, t, p);
    ExtraRead(c, l, t, p + Len(lengths)[ls]);
  }

  lemma LiteralRead(lengths: seq<nat>, b: byte, t: seq<bool>, p: nat)
    requires |lengths| == NUM_SYMBOLS && Fits(lengths) && Used(Bd(lengths), b)
    requires Room(t, p, CodeBits(Bd(lengths), b))
    ensures ReadOp(BlockTables(lengths), t, p) == Got(Tok(Literal(b)), p + |CodeBits(Bd(lengths), b)|)
  {
    hide Table, CodeBits, Lookup;
    LookupCode(Bd(lengths), BdCodes(), b, t, p);
    assert BdCodes()[b] == Code(b, 0, false);
  }

  /** Every token is read back from its bits. */
  lemma TokenRead(tok: Token, lengths: seq<nat>, t: seq<bool>, p: nat)
    requires |lengths| == NUM_SYMBOLS && Fits(lengths) && Codable(tok, lengths) && Room(t, p, TokenBits(tok, lengths))
    ensures ReadOp(BlockTables(lengths), t, p) == Got(Tok(tok), p + |TokenBits(tok, lengths)|)
  {
    hide Table, CodeBits, Lookup, WithExtra, DistCode, LenCode, ReadOp, BlockTables, Fits, Room, DistSym, LenSym;
    match tok
    case Literal(b) => LiteralRead(lengths, b, t, p);
    case Match(d, l) => MatchRead(lengths, d, l, t, p);
  }

  lemma MatchRead(lengths: seq<nat>, d: nat, l: nat, t: seq<bool>, p: nat)
    requires |lengths| == NUM_SYMBOLS && Fits(lengths) && Codable(Match(d, l), lengths)
    requires Room(t, p, TokenBits(Match(d, l), lengths))
    ensures ReadOp(BlockTables(lengths), t, p) == Got(Tok(Match(d, l)), p + |TokenBits(Match(d, l), lengths)|)
  {
    hide Table, CodeBits, Lookup, WithExtra, DistCode, LenCode, BlockTables, Fits, Room, DistSym, LenSym, Used, GoodTables;
    RoomSplit(t, p, DistCode(lengths, d), LenCode(lengths, l));
    DistRead(lengths, d, t, p);
    LenLookup(lengths, l, t, p + |DistCode(lengths, d)|);
    OpOfMatch(BlockTables(lengths), d, l, t, p, p + |DistCode(lengths, d)|, p + |DistCode(lengths, d)| + |LenCode(lengths, l)|);
  }

  lemma OpOfMatch(tabs: Lookups, d: nat, l: nat, t: seq<bool>, p: nat, p2: nat, p4: nat)
    requires GoodTables(tabs) && 1 <= d != EOB_MARK && 1 <= l <= MAX_COPY
    requires var w := Lookup(tabs.bd, t, p);
             0 <= w && tabs.bd[w].code.isDist && WithExtra(tabs.bd[w].code, t, p + tabs.bd[w].len) == Got(d, p2)
    requires var w := Lookup(tabs.len, t, p2); 0 <= w && WithExtra(tabs.len[w].code, t, p2 + tabs.len[w].len) == Got(l, p4)
    ensures ReadOp(tabs, t, p) == Got(Tok(Match(d, l)), p4)
  {
    hide Lookup, WithExtra;
  }

  lemma EndRead(lengths: seq<nat>, t: seq<bool>, p: nat)
    requires |lengths| == NUM_SYMBOLS && Fits(lengths) && EndCodable(lengths) && Room(t, p, EndBits(lengths))
    ensures ReadOp(BlockTables(lengths), t, p) == Got(End, p + |EndBits(lengths)|)
  {
    hide Table, CodeBits, Lookup, WithExtra, DistCode;
    RoomSplit(t, p, DistCode(lengths, EOB_MARK), LenCode(lengths, MIN_MATCH));
    DistRead(lengths, EOB_MARK, t, p);
    LenLookup(lengths, MIN_MATCH, t, p + |DistCode(lengths, EOB_MARK)|);
    LenEnc(0);
  }

  lemma BodyStep(tabs: Lookups, t: seq<bool>, p: nat, hist: seq<byte>, tok: Token, p': nat)
    requires GoodTables(tabs) && ReadOp(tabs, t, p) == Got(Tok(tok), p') && Applies(tok, hist)
    ensures ReadBlock(tabs, t, p, hist) == ReadBlock(tabs, t, p', Apply(tok, hist))
  {
    hide ReadOp, GoodTables, Apply;
  }

  lemma BodyEnd(tabs: Lookups, t: seq<bool>, p: nat, hist: seq<byte>, p': nat)
    requires GoodTables(tabs) && ReadOp(tabs, t, p) == Got(End, p')
    ensures ReadBlock(tabs, t, p, hist) == Ended(hist, p')
  {
    hide ReadOp, GoodTables;
  }

  lemma FirstCodable(toks: seq<Token>, lengths: seq<nat>)
    requires |lengths| == NUM_SYMBOLS && CodableAll(toks, lengths) && toks != []
    ensures Codable(toks[0], lengths) && CodableAll(toks[1..], lengths)
    ensures TokensBits(toks, lengths) == TokenBits(toks[0], lengths) + TokensBits(toks[1..], lengths)
  {
    hide Codable, TokenBits;
  }

  /** A block's body replays its tokens. */
  lemma {:induction false} BodyRead(toks: seq<Token>, lengths: seq<nat>, t: seq<bool>, p: nat, hist: seq<byte>)
    requires |lengths| == NUM_SYMBOLS && Fits(lengths) && CodableAll(toks, lengths) && EndCodable(lengths)
    requires Room(t, p, TokensBits(toks, lengths) + EndBits(lengths)) && AppliesAll(toks, hist)
    ensures ReadBlock(BlockTables(lengths), t, p, hist)
            == Ended(ApplyAll(toks, hist), p + |TokensBits(toks, lengths) + EndBits(lengths)|)
    decreases |toks|
  {
    hide ReadOp, ReadBlock, TokenBits, EndBits, BlockTables, Fits, Room, Codable, CodableAll, EndCodable, Apply, Applies, GoodTables;
    if toks == [] {
      assert TokensBits(toks, lengths) + EndBits(lengths) == EndBits(lengths);
      EndRead(lengths, t, p);
      BodyEnd(BlockTables(lengths), t, p, hist, p + |EndBits(lengths)|);
    } else {
      FirstCodable(toks, lengths);
      var a, rest := TokenBits(toks[0], lengths), TokensBits(toks[1..], lengths) + EndBits(lengths);
      assert TokensBits(toks, lengths) + EndBits(lengths) == a + rest;
      RoomSplit(t, p, a, rest);
      TokenRead(toks[0], lengths, t, p);
      BodyStep(BlockTables(lengths), t, p, hist, toks[0], p + |a|);
      BodyRead(toks[1..], lengths, t, p + |a|, Apply(toks[0], hist));
    }
  }

  lemma HeaderRead(b: Block, prev: seq<nat>, t: seq<bool>, p: nat)
    requires GoodBlock(b, prev) && Room(t, p, TreeBits(b.lengths, prev, b.tl))
    ensures ReadHeader(t, p, prev) == Got(b.lengths, p + |TreeBits(b.lengths, prev, b.tl)|)
  {
    TreeRoundTrip(b.lengths, prev, b.tl, t, p);
  }

  /** The parts of a good block that reading it needs. */
  lemma BlockShape(b: Block, prev: seq<nat>)
    requires GoodBlock(b, prev)
    ensures |b.lengths| == NUM_SYMBOLS && Lengths(b.lengths) && Fits(b.lengths) && CodableAll(b.toks, b.lengths)
    ensures EndCodable(b.lengths) && Describing(b.tl, b.lengths, prev)
    ensures BlockBits(b, prev) == BitsOf(1, 1) + (TreeBits(b.lengths, prev, b.tl) + BodyBits(b))
    ensures BodyBits(b) == TokensBits(b.toks, b.lengths) + EndBits(b.lengths)
  {
    hide TreeBits, TokensBits, EndBits, Fits, Codable, Describing, BitsOf;
  }

  /** One block of a good stream: its bits are where Decode looks for them. */
  lemma BlockRead(b: Block, prev: seq<nat>, t: seq<bool>, p: nat, hist: seq<byte>)
    requires GoodBlock(b, prev) && Lengths(prev) && AppliesAll(b.toks, hist) && Room(t, p, BlockBits(b, prev))
    ensures ReadAt(t, p, 1) == 1
    ensures var h := ReadHeader(t, p + 1, prev);
            && h.Got? && h.value == b.lengths
            && ReadBlock(BlockTables(h.value), t, h.pos, hist)
               == Ended(ApplyAll(b.toks, hist), p + |BlockBits(b, prev)|)
  {
    hide TreeBits, BodyBits, BlockBits, GoodBlock, Room, AppliesAll, ApplyAll, ReadHeader, ReadBlock, BlockTables, Fits, CodableAll,
         EndCodable, HtDec, ReadAt, TokensBits, EndBits, Describing, Lengths;
    BlockShape(b, prev);
    var head, body := TreeBits(b.lengths, prev, b.tl), BodyBits(b);
    RoomSplit(t, p, BitsOf(1, 1), head + body);
    ReadOne(t, p, 1);
    RoomSplit(t, p + 1, head, body);
    HeaderRead(b, prev, t, p + 1);
    BodyRead(b.toks, b.lengths, t, p + 1 + |head|, hist);
  }

  lemma ReadOne(t: seq<bool>, p: nat, v: nat)
    requires v < 2 && Room(t, p, BitsOf(v, 1))
    ensures ReadAt(t, p, 1) == v
  {
    PowersOfTwo();
    ReadAtBits(t, p, v, 1);
  }

  lemma DecodeStep(t: seq<bool>, p: nat, prev: seq<nat>, hist: seq<byte>, strict: bool, h: Parse<seq<nat>>, e: BlockEnd)
    requires Lengths(prev) && ReadAt(t, p, 1) == 1 && h == ReadHeader(t, p + 1, prev) && h.Got?
    requires e == ReadBlock(BlockTables(h.value), t, h.pos, hist) && e.Ended?
    ensures Decode(t, p, prev, hist, strict) == Decode(t, e.pos, h.value, e.hist, strict)
  {
    hide ReadHeader, ReadBlock, BlockTables, Fits, Lengths;
  }

  lemma DecodeEnd(t: seq<bool>, p: nat, prev: seq<nat>, hist: seq<byte>, strict: bool)
    requires Lengths(prev) && ReadAt(t, p, 1) == 0
    ensures Decode(t, p, prev, hist, strict) == Decoded(hist, p + 1)
  {
    hide ReadHeader, ReadBlock, BlockTables, Fits, Lengths;
  }

  lemma BlocksShape(bs: seq<Block>, prev: seq<nat>)
    requires GoodBlocks(bs, prev) && bs != []
    ensures GoodBlock(bs[0], prev) && Lengths(bs[0].lengths) && GoodBlocks(bs[1..], bs[0].lengths)
    ensures BlocksBits(bs, prev) == BlockBits(bs[0], prev) + BlocksBits(bs[1..], bs[0].lengths)
    ensures BlocksTokens(bs) == bs[0].toks + BlocksTokens(bs[1..])
  {
    hide Fits, Lengths, BlockBits, CodableAll, EndCodable, Describing;
  }

  /** Blocks followed by a clear presence bit decode to their tokens, strictly or not. */
  lemma {:induction false} StreamRead(bs: seq<Block>, prev: seq<nat>, t: seq<bool>, p: nat, hist: seq<byte>, strict: bool)
    requires Lengths(prev) && GoodBlocks(bs, prev) && AppliesAll(BlocksTokens(bs), hist)
    requires Room(t, p, BlocksBits(bs, prev) + BitsOf(0, 1))
    ensures Decode(t, p, prev, hist, strict)
            == Decoded(ApplyAll(BlocksTokens(bs), hist), p + |BlocksBits(bs, prev)| + 1)
    decreases |bs|
  {
    hide *;
    if bs == [] {
      StreamReadEnd(prev, t, p, hist, strict);
    } else {
      StreamReadBlock(bs, prev, t, p, hist);
      var b := bs[0];
      var p', h' := p + |BlockBits(b, prev)|, ApplyAll(b.toks, hist);
      BlockRead(b, prev, t, p, hist);
      DecodeStep(t, p, prev, hist, strict, ReadHeader(t, p + 1, prev), Ended(h', p'));
      StreamRead(bs[1..], b.lengths, t, p', h', strict);
    }
  }

  lemma StreamReadEnd(prev: seq<nat>, t: seq<bool>, p: nat, hist: seq<byte>, strict: bool)
    requires Lengths(prev) && Room(t, p, BlocksBits([], prev) + BitsOf(0, 1))
    ensures Decode(t, p, prev, hist, strict)
            == Decoded(ApplyAll(BlocksTokens([]), hist), p + |BlocksBits([], prev)| + 1)
    ensures AppliesAll(BlocksTokens([]), hist)
  {
    hide Decode, Room, Lengths, BitsOf;
    assert BlocksBits([], prev) + BitsOf(0, 1) == BitsOf(0, 1);
    ReadOne(t, p, 0);
    DecodeEnd(t, p, prev, hist, strict);
  }

  lemma StreamReadBlock(bs: seq<Block>, prev: seq<nat>, t: seq<bool>, p: nat, hist: seq<byte>)
    requires bs != [] && Lengths(prev) && GoodBlocks(bs, prev) && AppliesAll(BlocksTokens(bs), hist)
    requires Room(t, p, BlocksBits(bs, prev) + BitsOf(0, 1))
    ensures GoodBlock(bs[0], prev) && Lengths(bs[0].lengths) && GoodBlocks(bs[1..], bs[0].lengths)
    ensures AppliesAll(bs[0].toks, hist) && AppliesAll(BlocksTokens(bs[1..]), ApplyAll(bs[0].toks, hist))
    ensures ApplyAll(BlocksTokens(bs), hist) == ApplyAll(BlocksTokens(bs[1..]), ApplyAll(bs[0].toks, hist))
    ensures Room(t, p, BlockBits(bs[0], prev))
    ensures Room(t, p + |BlockBits(bs[0], prev)|, BlocksBits(bs[1..], bs[0].lengths) + BitsOf(0, 1))
    ensures |BlocksBits(bs, prev)| == |BlockBits(bs[0], prev)| + |BlocksBits(bs[1..], bs[0].lengths)|
  {
    hide Room, Lengths, BitsOf, BlocksBits, BlockBits, GoodBlocks, GoodBlock, AppliesAll, ApplyAll, BlocksTokens;
    BlocksShape(bs, prev);
    var a, rest := BlockBits(bs[0], prev), BlocksBits(bs[1..], bs[0].lengths) + BitsOf(0, 1);
    assert BlocksBits(bs, prev) + BitsOf(0, 1) == a + rest;
    RoomSplit(t, p, a, rest);
    SplitTokens(bs[0].toks, BlocksTokens(bs[1..]), hist);
  }

  lemma {:induction false} SplitTokens(a: seq<Token>, b: seq<Token>, hist: seq<byte>)
    requires AppliesAll(a + b, hist)
    ensures AppliesAll(a, hist) && AppliesAll(b, ApplyAll(a, hist))
    ensures ApplyAll(a + b, hist) == ApplyAll(b, ApplyAll(a, hist))
    decreases |a|
  {
    if a == [] {
      assert a + b == b;
    } else {
      assert (a + b)[1..] == a[1..] + b;
      SplitTokens(a[1..], b, Apply(a[0], hist));
    }
  }
}
