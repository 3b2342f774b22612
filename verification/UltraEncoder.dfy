/** The LZ77 compressor: matching, Huffman or rANS blocks, and the outer loop. */
module UltraEncoder {
  import opened BitStrings
  import opened ErrorCodes
  import opened BitIO
  import opened Tables
  import opened Tally
  import opened TreeCode
  import opened LzCodes
  import opened UltraFormat
  import opened UltraRoundTrip
  import opened Checksum
  import opened Window
  import opened LzParse
  import opened MatchFinder
  import opened BlockTokens
  import opened BlockWriter
  import opened BlockSplits
  import opened TextCover
  import opened Rans
  import opened RansFormat
  import opened RansRoundTrip
  import opened RansWriter

  // ----- the blocks written so far -----

  function LastLengths(bs: seq<Block>, prev: seq<nat>): seq<nat>
  {
    if bs == [] then prev else LastLengths(bs[1..], bs[0].lengths)
  }

  lemma {:induction false} AppendBlock(bs: seq<Block>, b: Block, prev: seq<nat>)
    requires GoodBlocks(bs, prev) && GoodBlock(b, LastLengths(bs, prev))
    ensures GoodBlocks(bs + [b], prev) && LastLengths(bs + [b], prev) == b.lengths
    ensures BlocksBits(bs + [b], prev) == BlocksBits(bs, prev) + BlockBits(b, LastLengths(bs, prev))
    ensures BlocksTokens(bs + [b]) == BlocksTokens(bs) + b.toks
  {
    hide GoodBlock, BlockBits, GoodBlocks, BlocksBits, LastLengths, BlocksTokens;
    NoBlocks(prev);
    if bs == [] {
      FirstBlock(b, [], prev);
      NoBlocks(b.lengths);
      assert [] + [b] == [b] + [];
    } else {
      var first, rest := bs[0], bs[1..];
      assert bs == [first] + rest && bs + [b] == [first] + (rest + [b]);
      FirstBlock(first, rest, prev);
      AppendBlock(rest, b, first.lengths);
      FirstBlock(first, rest + [b], prev);
    }
  }

  lemma NoBlocks(prev: seq<nat>)
    ensures GoodBlocks([], prev) && LastLengths([], prev) == prev && BlocksBits([], prev) == [] && BlocksTokens([]) == []
  {
  }

  lemma FirstBlock(b: Block, rest: seq<Block>, prev: seq<nat>)
    ensures GoodBlocks([b] + rest, prev) <==> GoodBlock(b, prev) && GoodBlocks(rest, b.lengths)
    ensures LastLengths([b] + rest, prev) == LastLengths(rest, b.lengths)
    ensures BlocksTokens([b] + rest) == b.toks + BlocksTokens(rest)
    ensures GoodBlocks([b] + rest, prev) ==> BlocksBits([b] + rest, prev) == BlockBits(b, prev) + BlocksBits(rest, b.lengths)
  {
    hide GoodBlock, BlockBits;
    assert ([b] + rest)[1..] == rest;
  }

  // ----- what the output means -----

  /** Decoded on any window that ends in the master, and with a lookahead word behind it, the output gives the data. */
  ghost predicate Encodes(out: seq<byte>, used: nat, master: seq<byte>, data: seq<byte>)
  {
    && Lengths(DefaultLengths()) && |out| == 2 * ((used + 15) / 16)
    && forall pre: seq<byte>, rest: seq<byte>, strict: bool :: |rest| >= 2 ==>
         Decode(WordBits(out + rest), 0, DefaultLengths(), pre + master, strict) == Decoded(pre + master + data, used)
  }

  lemma RoomInOutput(out: seq<byte>, rest: seq<byte>, b: seq<bool>, pad: seq<bool>)
    requires |out| % 2 == 0 && WordBits(out) == b + pad && |rest| >= 2
    ensures Room(WordBits(out + rest), 0, b)
  {
    WordBitsConcat(out, rest);
    assert (b + pad + WordBits(rest))[..|b|] == b;
  }

  lemma DecodesBack(bs: seq<Block>, master: seq<byte>, text: seq<byte>, out: seq<byte>, pad: seq<bool>, pre: seq<byte>, rest: seq<byte>, strict: bool)
    requires Lengths(DefaultLengths()) && GoodBlocks(bs, DefaultLengths()) && Covers(BlocksTokens(bs), text, |master|, |text|)
    requires text[..|master|] == master
    requires |out| % 2 == 0 && WordBits(out) == BlocksBits(bs, DefaultLengths()) + BitsOf(0, 1) + pad && |rest| >= 2
    ensures Decode(WordBits(out + rest), 0, DefaultLengths(), pre + master, strict)
            == Decoded(pre + text, |BlocksBits(bs, DefaultLengths())| + 1)
  {
    hide Decode, Room, GoodBlocks, BlocksBits, BlocksTokens, WordBits, BitsOf, DefaultLengths, Lengths;
    assert text[..|text|] == text;
    ApplyPrefix(pre, BlocksTokens(bs), master);
    RoomInOutput(out, rest, BlocksBits(bs, DefaultLengths()) + BitsOf(0, 1), pad);
    StreamRead(bs, DefaultLengths(), WordBits(out + rest), 0, pre + master, strict);
  }

  lemma PaddedLength(n: nat, used: nat, pad: nat)
    requires n % 2 == 0 && 16 * (n / 2) == used + pad && pad < 16
    ensures n == 2 * ((used + 15) / 16)
  {
  }

  lemma OutputLength(bs: seq<Block>, out: seq<byte>, pad: seq<bool>)
    requires Lengths(DefaultLengths()) && GoodBlocks(bs, DefaultLengths()) && |pad| < 16
    requires |out| % 2 == 0 && WordBits(out) == BlocksBits(bs, DefaultLengths()) + BitsOf(0, 1) + pad
    ensures |out| == 2 * ((|BlocksBits(bs, DefaultLengths())| + 1 + 15) / 16)
  {
    hide GoodBlocks, BlocksBits, DefaultLengths, Lengths, WordBits;
    PaddedLength(|out|, |BlocksBits(bs, DefaultLengths())| + 1, |pad|);
  }

  lemma OutputEncodes(bs: seq<Block>, master: seq<byte>, data: seq<byte>, out: seq<byte>, pad: seq<bool>)
    requires Lengths(DefaultLengths()) && GoodBlocks(bs, DefaultLengths())
    requires Covers(BlocksTokens(bs), master + data, |master|, |master + data|)
    requires |out| % 2 == 0 && WordBits(out) == BlocksBits(bs, DefaultLengths()) + BitsOf(0, 1) + pad && |pad| < 16
    ensures Encodes(out, |BlocksBits(bs, DefaultLengths())| + 1, master, data)
  {
    hide *;
    EncodesIf(out, |BlocksBits(bs, DefaultLengths())| + 1, master, data) by {
      OutputLength(bs, out, pad);
      forall pre: seq<byte>, rest: seq<byte>, strict: bool | |rest| >= 2
        ensures Decode(WordBits(out + rest), 0, DefaultLengths(), pre + master, strict)
                == Decoded(pre + master + data, |BlocksBits(bs, DefaultLengths())| + 1)
      {
        assert (master + data)[..|master|] == master;
        DecodesBack(bs, master, master + data, out, pad, pre, rest, strict);
        assert pre + (master + data) == pre + master + data;
      }
    }
  }

  lemma EncodesIf(out: seq<byte>, used: nat, master: seq<byte>, data: seq<byte>)
    requires Lengths(DefaultLengths()) && |out| == 2 * ((used + 15) / 16)
    requires forall pre: seq<byte>, rest: seq<byte>, strict: bool :: |rest| >= 2 ==>
               Decode(WordBits(out + rest), 0, DefaultLengths(), pre + master, strict) == Decoded(pre + master + data, used)
    ensures Encodes(out, used, master, data)
  {
    hide Decode, Lengths, DefaultLengths, WordBits;
  }

  // ----- the compressor -----

  /** The blocks so far are good and make up the bit stream; Huffman blocks also left their lengths behind. */
  ghost predicate Emitted(rans: bool, bs: seq<Block>, stream: seq<bool>, prev: seq<nat>)
  {
    if rans then RansGoodBlocks(bs) && stream == RansBlocksBits(bs)
    else
      && Lengths(DefaultLengths()) && GoodBlocks(bs, DefaultLengths()) && LastLengths(bs, DefaultLengths()) == prev
      && stream == BlocksBits(bs, DefaultLengths())
  }

  /** The same with the end-of-stream bit. */
  ghost predicate Finished(rans: bool, bs: seq<Block>, stream: seq<bool>)
  {
    if rans then RansGoodBlocks(bs) && stream == RansBlocksBits(bs) + BitsOf(0, 1)
    else
      && Lengths(DefaultLengths()) && GoodBlocks(bs, DefaultLengths())
      && stream == BlocksBits(bs, DefaultLengths()) + BitsOf(0, 1)
  }

  lemma EmittedNothing(rans: bool)
    ensures Emitted(rans, [], [], DefaultLengths())
  {
    hide DefaultLengths, Lengths;
    DefaultIsCode();
  }

  lemma EmittedHuffman(bs: seq<Block>, b: Block, prev: seq<nat>, stream: seq<bool>)
    requires Emitted(false, bs, stream, prev) && GoodBlock(b, prev)
    ensures Emitted(false, bs + [b], stream + (BlockBits(b, prev) + []), b.lengths)
    ensures Finished(false, bs + [b], stream + (BlockBits(b, prev) + BitsOf(0, 1)))
    ensures BlocksTokens(bs + [b]) == BlocksTokens(bs) + b.toks
  {
    hide GoodBlock, BlockBits, GoodBlocks, BlocksBits, LastLengths, Lengths, DefaultLengths, BitsOf, BlocksTokens;
    AppendBlock(bs, b, DefaultLengths());
    assert stream + (BlockBits(b, prev) + []) == stream + BlockBits(b, prev);
    assert stream + (BlockBits(b, prev) + BitsOf(0, 1)) == stream + BlockBits(b, prev) + BitsOf(0, 1);
  }

  lemma EmittedRans(bs: seq<Block>, b: Block, prev: seq<nat>, stream: seq<bool>)
    requires Emitted(true, bs, stream, prev) && RansGood(b.toks) && TokensOk(b.toks)
    ensures Emitted(true, bs + [b], stream + (RansBits(b.toks) + []), prev)
    ensures Finished(true, bs + [b], stream + (RansBits(b.toks) + BitsOf(0, 1)))
    ensures BlocksTokens(bs + [b]) == BlocksTokens(bs) + b.toks
  {
    hide RansGood, RansBits, BitsOf, RansGoodBlocks, RansBlocksBits, BlocksTokens;
    AppendRans(bs, b);
    assert stream + (RansBits(b.toks) + []) == stream + RansBits(b.toks);
    assert stream + (RansBits(b.toks) + BitsOf(0, 1)) == stream + RansBits(b.toks) + BitsOf(0, 1);
  }

  lemma {:induction false} AppendRans(bs: seq<Block>, b: Block)
    requires RansGoodBlocks(bs) && RansGood(b.toks) && TokensOk(b.toks)
    ensures RansGoodBlocks(bs + [b]) && RansBlocksBits(bs + [b]) == RansBlocksBits(bs) + RansBits(b.toks)
    ensures BlocksTokens(bs + [b]) == BlocksTokens(bs) + b.toks
  {
    hide RansGood, RansBits, TokensOk, RansGoodBlocks, RansBlocksBits, BlocksTokens;
    NoRansBlocks();
    if bs == [] {
      FirstRans(b, []);
      assert [] + [b] == [b] + [];
    } else {
      var first, rest := bs[0], bs[1..];
      assert bs == [first] + rest && bs + [b] == [first] + (rest + [b]);
      FirstRans(first, rest);
      AppendRans(rest, b);
      FirstRans(first, rest + [b]);
    }
  }

  lemma NoRansBlocks()
    ensures RansGoodBlocks([]) && RansBlocksBits([]) == [] && BlocksTokens([]) == []
  {
  }

  lemma FirstRans(b: Block, rest: seq<Block>)
    ensures RansGoodBlocks([b] + rest) <==> RansGood(b.toks) && RansGoodBlocks(rest)
    ensures BlocksTokens([b] + rest) == b.toks + BlocksTokens(rest)
    ensures RansGoodBlocks([b] + rest) ==> TokensOk(b.toks) && RansBlocksBits([b] + rest) == RansBits(b.toks) + RansBlocksBits(rest)
  {
    hide RansBits, TokensOk;
    assert ([b] + rest)[1..] == rest;
  }

  lemma GoodLengths(b: Block, prev: seq<nat>)
    requires GoodBlock(b, prev)
    ensures Lengths(b.lengths)
  {
    hide Fits, Describing, CodableAll, EndCodable, Lengths;
  }

  lemma DefaultIsCode()
    ensures Lengths(DefaultLengths())
  {
    DefaultFacts();
  }

  class Compressor {
    const win: MatchWindow
    const tb: TokenBuffer
    const bo: BitWriter
    const symprev: array<nat>
    const lv: Level
    const useRans: bool
    var pos: nat
    var blockCount: nat
    ghost const base: nat
    ghost var blocks: seq<Block>
    ghost var run: seq<Parse> // the states the search went through

    /** The arrays are different arrays. */
    ghost predicate Apart()
      reads tb
    {
      && tb.Sized()
      && {win.head as object, win.prev} !! {tb.ibuf as object, tb.bdFreq, tb.lFreq, symprev}
      && {tb.ibuf as object, tb.bdFreq, tb.lFreq} !! {symprev as object, bo.buf, win.data}
      && {bo.buf as object} !! {win.data as object, win.head, win.prev, symprev} && symprev != win.data as object
      && win.data != win.head as object && win.data != win.prev as object
    }

    ghost predicate Parts()
      reads this`pos, this`blockCount, this`blocks, win, win.data, win.head, win.prev, tb, tb.ibuf, tb.bdFreq, tb.lFreq, bo, bo.buf, symprev
    {
      && Apart() && win.Valid() && win.Linked() && tb.Valid() && bo.Valid()
      && symprev.Length == NUM_SYMBOLS && Lengths(symprev[..]) && Lengths(DefaultLengths())
    }

    /** What is in the bit stream and what is still in the buffer replay the text up to pos; the blocks written were full. */
    ghost predicate Valid()
      reads this`pos, this`blockCount, this`blocks, win, win.data, win.head, win.prev, tb, tb.ibuf, tb.bdFreq, tb.lFreq, bo, bo.buf, symprev
    {
      && Parts()
      && Covers(BlocksTokens(blocks) + tb.toks, win.text, base, pos)
      && Emitted(useRans, blocks, bo.Stream(), symprev[..])
      && blockCount == |blocks| && CodedBlocks(useRans, blocks) && FullBlocks(blocks)
    }

    ghost predicate Idle()
      reads this`pos, this`blockCount, this`blocks, win, win.data, win.head, win.prev, tb, tb.ibuf, tb.bdFreq, tb.lFreq, bo, bo.buf, symprev
    {
      && Apart() && win.Valid() && win.Linked() && win.entered == [] && |win.text| < WINDOW
      && tb.Blank() && bo.Valid() && symprev.Length == NUM_SYMBOLS
      && pos == base == |win.text| && blocks == [] && blockCount == 0 && bo.Stream() == []
    }

    ghost function State(): Parse
      reads this, win, tb
    {
      Parse(win.text, pos, win.entered, BlocksTokens(blocks) + tb.toks)
    }

    /** The tokens so far come from a run of searches. */
    ghost predicate Searching(master: seq<byte>)
      reads this, win, tb
    {
      Before(win.entered, pos) && RunTo(lv, master, run, State())
    }

    /** Level parameters over fresh parts, with the master in the window; levels from 6 on use rANS. */
    constructor (level: nat, win: MatchWindow, tb: TokenBuffer, bo: BitWriter, symprev: array<nat>)
      ensures this.win == win && this.tb == tb && this.bo == bo && this.symprev == symprev && useRans == (level >= 6) && lv == LevelOf(level)
      ensures pos == base == win.end && blockCount == 0 && blocks == []
    {
      lv := LevelOf(level);
      useRans := level >= 6;
      this.win, this.tb, this.bo, this.symprev := win, tb, bo, symprev;
      pos, base, blockCount, blocks := win.end, win.end, 0, [];
    }

    /** The previous lengths, the master's hashes and the end mark's counts. */
    method Start()
      requires Idle()
      modifies this`run, win.head, win.prev, win`entered, tb.bdFreq, tb.lFreq, symprev
      ensures Valid() && Searching(win.text)
    {
      hide MatchWindow.Linked, TokenBuffer.Valid, TokenBuffer.Blank, BitIO.Holds, BitWriter.Stream, Ring, DefaultLengths, Covers, Emitted,
           Before, RunTo, Positions, BlocksTokens, Lengths;
      DefaultIsCode();
      tb.CountEnd();
      FillDefault(symprev);
      EnterMaster();
      CoversNothing(win.text);
      EmittedNothing(useRans);
      NoTokens();
      assert symprev[..] == DefaultLengths() && bo.Stream() == [] && BlocksTokens(blocks) + tb.toks == [];
      run := [AtStart(win.text)];
      RunOne(lv, win.text);
    }

    lemma NoTokens()
      ensures BlocksTokens([]) == []
    {
    }

    /** All positions of the master that have three bytes are entered. */
    method EnterMaster()
      requires win.Valid() && win.Linked() && win.entered == [] && pos == |win.text| < WINDOW
      modifies win.head, win.prev, win`entered
      ensures win.Valid() && win.Linked() && win.entered == Positions(0, pos - 2) && Before(win.entered, pos)
    {
      hide MatchWindow.Linked, Ring;
      var i := 0;
      while i + 2 < pos
        modifies win.head, win.prev, win`entered
        invariant win.Valid() && win.Linked() && win.entered == Positions(0, i) && Before(win.entered, i) && (i == 0 || i + 2 <= pos)
      {
        PositionsMore(0, i);
        win.HashEnter(i);
        i := i + 1;
      }
      BeforeMore(win.entered, i, pos);
      assert win.entered == Positions(0, pos - 2);
    }

    lemma Reassociate(a: seq<Token>, b: seq<Token>, tok: Token)
      ensures a + (b + [tok]) == (a + b) + [tok]
    {
    }

    lemma Bounds()
      requires Valid()
      ensures base <= pos <= win.end == |win.text| && win.data.Length == WINDOW
      ensures forall q: nat :: q < |win.text| && |win.text| <= q + WINDOW ==> win.data[q % WINDOW] == win.text[q]
    {
      hide Emitted, BlocksTokens, TokenBuffer.Valid, BitWriter.Valid;
    }

    method EmitLiteral()
      requires Valid() && pos < win.end <= pos + 1536 && tb.count < IBUF_SIZE
      modifies this`pos, tb`count, tb`toks, tb.ibuf, tb.bdFreq
      ensures Valid() && pos == old(pos) + 1 && tb.count == old(tb.count) + 1
      ensures tb.toks == old(tb.toks) + [Literal(win.text[old(pos)])]
    {
      hide Covers, Emitted, BlocksTokens, Lengths, DefaultLengths, TokenBuffer.Valid, Ring,
           TokensOk, AllEntries, Sum, BitWriter.Valid, BitWriter.Stream;
      Bounds();
      var b := win.data[pos % WINDOW];
      CoversLiteral(BlocksTokens(blocks) + tb.toks, win.text, base, pos);
      Reassociate(BlocksTokens(blocks), tb.toks, Literal(b));
      tb.PutLiteral(b);
      pos := pos + 1;
    }

    /** A match is emitted and its positions are entered into the hash chains. */
    method EmitMatch(dist: nat, len: nat)
      requires Valid() && Repeats(win.text, pos, dist, len) && MIN_MATCH <= len <= MAX_LEN && dist <= MAX_DIST
      requires tb.count + 3 <= IBUF_SIZE
      requires pos + 3 <= win.end <= pos + 1024 && Before(win.entered, pos + 1)
      modifies this`pos, tb`count, tb`toks, tb.ibuf, tb.bdFreq, tb.lFreq, win.head, win.prev, win`entered
      ensures Valid() && pos == old(pos) + len && tb.count <= old(tb.count) + 3
      ensures tb.toks == old(tb.toks) + [Match(dist, len)]
      ensures win.entered == old(win.entered) + Positions(old(pos) + 1, Enterable(win.text, pos)) && Before(win.entered, pos)
    {
      hide Covers, Emitted, BlocksTokens, Lengths, DefaultLengths, TokenBuffer.Valid, Ring,
           TokensOk, AllEntries, Sum, BitWriter.Valid, BitWriter.Stream, Repeats;
      CoversMatch(BlocksTokens(blocks) + tb.toks, win.text, base, pos, dist, len);
      RepeatsBack(dist, len);
      Reassociate(BlocksTokens(blocks), tb.toks, Match(dist, len));
      tb.PutMatch(dist, len);
      EnterSkipped(len);
      pos := pos + len;
    }

    lemma RepeatsBack(dist: nat, len: nat)
      requires Repeats(win.text, pos, dist, len)
      ensures 1 <= dist
    {
    }

    /** Enters the positions inside a match that still have three bytes. */
    method EnterSkipped(len: nat)
      requires win.Valid() && win.Linked() && Before(win.entered, pos + 1) && pos + 3 <= win.end <= pos + WINDOW && len >= 1
      modifies win.head, win.prev, win`entered
      ensures win.Valid() && win.Linked()
      ensures win.entered == old(win.entered) + Positions(pos + 1, Enterable(win.text, pos + len)) && Before(win.entered, pos + len)
    {
      hide Ring, MatchWindow.Linked, Before;
      ghost var before := win.entered;
      var j := 1;
      while j < len && win.end - (pos + j) >= 3
        invariant win.Valid() && win.Linked() && 1 <= j <= len && pos + j <= win.end - 2
        invariant win.entered == before + Positions(pos + 1, pos + j) && Before(win.entered, pos + j)
      {
        PositionsMore(pos + 1, pos + j);
        win.HashEnter(pos + j);
        j := j + 1;
      }
      BeforeMore(win.entered, pos + j, pos + len);
    }

    /**
      * The buffered tokens are written out as a block, with the end-of-stream bit after the last one. Fails only where
      * the coder finds no table for them.
      */
    method WriteBlock(isLast: bool) returns (ok: bool, ghost b: Block)
      requires Valid() && tb.count <= 32000
      modifies this`blockCount, this`blocks, tb`count, tb`toks, tb.bdFreq, tb.lFreq, bo, bo.buf, symprev
      ensures b.toks == old(tb.toks) && TokensOk(b.toks) && |AllEntries(b.toks)| == old(tb.count)
      ensures !ok ==> blocks == old(blocks) && !BlockCodable(useRans, blocks == [], b.toks)
      ensures ok ==>
        && bo.Valid() && tb.Blank() && Lengths(symprev[..])
        && blocks == old(blocks) + [b] && blockCount == |blocks| && CodedBlocks(useRans, blocks)
        && BlocksTokens(blocks) == BlocksTokens(old(blocks)) + b.toks
        && if isLast then Finished(useRans, blocks, bo.Stream()) else Emitted(useRans, blocks, bo.Stream(), symprev[..])
    {
      hide Covers, Emitted, Finished, GoodBlock, BlockBits, BlocksTokens, Lengths, DefaultLengths, RansGood, RansBits,
           TokenBuffer.Valid, TokenBuffer.Blank, TokensOk, AllEntries, BitIO.Holds, BitWriter.Stream, UsedCount, Ring, BitsOf,
           Correctable, BlockCounts, HuffmanCodable, CodedBlocks, FullBlocks;
      ghost var prev, before, toks, stream := symprev[..], blocks, tb.toks, bo.Stream();
      TokensFit();
      if useRans {
        ok := FlushBlockRans(bo, tb, isLast);
        b := Block([], [], toks);
        assert symprev[..] == prev;
        if ok {
          EmittedRans(before, b, prev, stream);
        }
      } else {
        ok, b := FlushBlock(bo, tb, symprev, blockCount == 0, isLast);
        if ok {
          GoodLengths(b, prev);
          EmittedHuffman(before, b, prev, stream);
        }
      }
      if !ok {
        b := Block([], [], toks);
        return;
      }
      OneMoreBlock(useRans, before, b);
      blockCount := blockCount + 1;
      blocks := blocks + [b];
    }

    /** A full block is written out and the next one started. */
    method Flush() returns (ok: bool, ghost stuck: seq<Token>)
      requires Valid() && FLUSH_AT < tb.count <= 32000
      modifies this`blockCount, this`blocks, tb`count, tb`toks, tb.bdFreq, tb.lFreq, bo, bo.buf, symprev
      ensures ok ==> BlocksTokens(blocks) + tb.toks == old(BlocksTokens(blocks) + tb.toks)
      ensures if ok then Valid() && tb.count == 0 else FullStuck(useRans, blocks, stuck, win.text, base)
    {
      hide Covers, Emitted, BlocksTokens, Lengths, DefaultLengths, TokenBuffer.Valid, TokenBuffer.Blank, TokensOk, AllEntries,
           BitIO.Holds, BitWriter.Stream, Ring, CodedBlocks, FullBlocks, BlockCodable;
      ghost var before := blocks;
      ghost var b;
      assert Covers(BlocksTokens(before) + tb.toks, win.text, base, pos) && FullBlocks(before) && CodedBlocks(useRans, before);
      ok, b := WriteBlock(false);
      stuck := b.toks;
      if ok {
        OneMoreFull(before, b);
        tb.CountEnd();
        assert BlocksTokens(blocks) + tb.toks == BlocksTokens(blocks);
      }
    }

    lemma TokensFit()
      requires tb.Valid()
      ensures TokensOk(tb.toks) && |AllEntries(tb.toks)| == tb.count
    {
    }

    method Enter()
      requires Valid() && Before(win.entered, pos) && pos + 3 <= win.end <= pos + 1024
      modifies win.head, win.prev, win`entered
      ensures Valid() && win.entered == old(win.entered) + [pos] && Before(win.entered, pos + 1)
    {
      hide MatchWindow.Linked, Before, Covers, Emitted, BlocksTokens, Lengths, DefaultLengths, TokenBuffer.Valid, Ring,
           BitWriter.Valid, BitWriter.Stream;
      win.HashEnter(pos);
    }

    method Find(at: nat, depth: nat) returns (len: nat, dist: nat)
      requires Valid() && Before(win.entered, at) && pos <= at && at + 3 <= win.end <= pos + 1024
      ensures len == 0 || (MIN_MATCH <= len <= MAX_LEN && dist <= MAX_DIST && Repeats(win.text, at, dist, len))
      ensures at <= NO_POSITION ==>
                BestMatch(win.text, at, Candidates(win.entered, win.text, at), depth, lv.giveUp, len, dist)
    {
      hide MatchWindow.Linked, Before, BestMatch, Candidates, Covers, Emitted, BlocksTokens, Lengths, DefaultLengths, TokenBuffer.Valid, Ring,
           BitWriter.Valid, BitWriter.Stream, Repeats;
      len, dist := win.FindMatch(at, depth, lv.giveUp);
    }

    /** A literal, or a match: possibly after one literal, when the next position has a longer match. */
    method NextToken(ghost master: seq<byte>)
      requires Valid() && Searching(master) && pos + MIN_MATCH <= win.end <= pos + 1024 && tb.count <= FLUSH_AT
      modifies this`pos, this`run, tb`count, tb`toks, tb.ibuf, tb.bdFreq, tb.lFreq, win.head, win.prev, win`entered
      ensures Valid() && Searching(master) && old(pos) < pos <= win.end && tb.count <= FLUSH_AT + 4
      ensures Picks(lv, old(State()), State())
    {
      hide Compressor.Valid, Repeats, BestMatch, Candidates, Positions, RunTo, Before, BlocksTokens, Picks, AfterTokens, Next,
           Enterable;
      Bounds();
      ghost var s := State();
      var len, dist := Find(pos, lv.maxSearch);
      ghost var f, g := Found(len, dist), Found(0, 0);
      Enter();
      if len == 0 {
        EmitLiteral();
      } else {
        if len < lv.lazyLimit && win.end - pos > len {
          var len2, dist2 := Find(pos + 1, lv.lazyDepth);
          g := Found(len2, dist2);
          if len2 > len {
            EmitLiteral();
            Enter();
            len, dist := len2, dist2;
          }
        }
        EmitMatch(dist, len);
      }
      Bounds();
      assert BlocksTokens(blocks) + tb.toks == s.toks + Picked(s, f, g);
      HavePicked(lv, s, f, g, State());
      RunMore(lv, master, run, s, State());
      run := run + [State()];
    }

    /** Compresses what has been loaded, up to two bytes, flushing full blocks. */
    method CompressLoaded(ghost master: seq<byte>) returns (ok: bool, ghost stuck: seq<Token>)
      requires Valid() && Searching(master) && win.end <= pos + 1024 && tb.count <= FLUSH_AT
      modifies this`pos, this`run, this`blockCount, this`blocks, tb`count, tb`toks, tb.ibuf, tb.bdFreq, tb.lFreq,
               win.head, win.prev, win`entered, bo, bo.buf, symprev
      ensures ok ==> Valid() && Searching(master) && win.end < pos + MIN_MATCH && tb.count <= FLUSH_AT
      ensures !ok ==> FullStuck(useRans, blocks, stuck, win.text, base)
    {
      hide Compressor.Valid, FullStuck, RunTo, Before, BlocksTokens;
      ok, stuck := true, [];
      Bounds();
      while win.end - pos >= MIN_MATCH
        invariant Valid() && Searching(master) && pos <= win.end <= pos + 1024 && tb.count <= FLUSH_AT
      {
        NextToken(master);
        if tb.count > FLUSH_AT {
          ok, stuck := Flush();
          if !ok {
            return;
          }
        }
        Bounds();
      }
      ok := true;
    }

    /** The last bytes, too few for a match, are literals. */
    method Trailing()
      requires Valid() && win.end < pos + MIN_MATCH && tb.count <= FLUSH_AT
      modifies this`pos, tb`count, tb`toks, tb.ibuf, tb.bdFreq
      ensures Valid() && pos == win.end && tb.count <= 32000 && blocks == old(blocks)
      ensures BlocksTokens(blocks) + tb.toks == old(BlocksTokens(blocks) + tb.toks) + Literals(win.text[old(pos)..])
    {
      hide Compressor.Valid, BlocksTokens, Literals;
      Bounds();
      ghost var from, before := pos, BlocksTokens(blocks) + tb.toks;
      NoLiterals(win.text, pos);
      while pos != win.end
        invariant Valid() && pos <= win.end < pos + MIN_MATCH && tb.count <= FLUSH_AT + MIN_MATCH - (win.end - pos)
        invariant from <= pos && BlocksTokens(blocks) + tb.toks == before + Literals(win.text[from..pos])
        decreases win.end - pos
      {
        LiteralsMore(win.text, from, pos);
        Reassociate(BlocksTokens(blocks), tb.toks, Literal(win.text[pos]));
        Reassociate(before, Literals(win.text[from..pos]), Literal(win.text[pos]));
        EmitLiteral();
      }
      assert win.text[from..pos] == win.text[from..];
    }

    /** Loads the next piece of input. */
    method Load(src: ByteSource, remaining: nat, ghost master: seq<byte>) returns (piece: seq<byte>)
      requires Valid() && Searching(master) && src.pos <= |src.data| && remaining > 0 && win.end < pos + MIN_MATCH
      modifies this`run, win`text, win`end, win`loadPos, win.data, src
      ensures piece != [] ==> Searching(master)
      ensures Valid() && win.text == old(win.text) + piece && |piece| <= remaining && |piece| <= READ_SIZE
      ensures win.end <= pos + 1024
      ensures old(src.pos) <= src.pos <= |src.data| && piece == src.data[old(src.pos)..src.pos]
      ensures piece == [] <==> old(src.pos) == |src.data|
    {
      hide Covers, Emitted, BlocksTokens, Lengths, DefaultLengths, TokenBuffer.Valid, Ring,
           BitWriter.Valid, BitWriter.Stream, MatchWindow.Linked, Before, RunTo;
      ghost var text, s := win.text, State();
      piece := win.Load(src, remaining);
      if piece != [] {
        assert Loads(s, State());
        RunMore(lv, master, run, s, State());
        run := run + [State()];
      }
      CoversMore(BlocksTokens(blocks) + tb.toks, text, piece, base, pos);
    }
  }


  /** The result of compressing: the bytes and the checksum, an error code, or a block no 13-bit code was found for. */
  datatype Compression = Compressed(out: seq<byte>, csum: bv32) | Faulted(code: int) | NoCode

  /** Decoded on any window that ends in the master, and with any limit that leaves room, the output gives the data. */
  ghost predicate RansEncodes(out: seq<byte>, used: nat, master: seq<byte>, data: seq<byte>)
  {
    && |out| == 2 * ((used + 15) / 16)
    && forall pre: seq<byte>, rest: seq<byte>, cap: nat :: |pre + master + data| <= cap ==>
         RansDecode(WordBits(out + rest), 0, pre + master, cap) == Decoded(pre + master + data, used)
  }

  ghost predicate Means(rans: bool, out: seq<byte>, used: nat, master: seq<byte>, data: seq<byte>)
  {
    if rans then RansEncodes(out, used, master, data) else Encodes(out, used, master, data)
  }

  lemma BitsInOutput(out: seq<byte>, rest: seq<byte>, b: seq<bool>, pad: seq<bool>)
    requires |out| % 2 == 0 && WordBits(out) == b + pad
    ensures HasBits(WordBits(out + rest), 0, b)
  {
    WordBitsConcat(out, rest);
    assert (b + pad + WordBits(rest))[..|b|] == b;
  }

  lemma RansDecodesBack(bs: seq<Block>, master: seq<byte>, text: seq<byte>, out: seq<byte>, pad: seq<bool>, pre: seq<byte>, rest: seq<byte>,
                        cap: nat)
    requires RansGoodBlocks(bs) && Covers(BlocksTokens(bs), text, |master|, |text|) && text[..|master|] == master
    requires |out| % 2 == 0 && WordBits(out) == RansBlocksBits(bs) + BitsOf(0, 1) + pad && |pre + text| <= cap
    ensures |pre + master| <= cap && RansDecode(WordBits(out + rest), 0, pre + master, cap) == Decoded(pre + text, |RansBlocksBits(bs)| + 1)
  {
    hide RansDecode, HasBits, RansGoodBlocks, RansBlocksBits, BlocksTokens, WordBits, BitsOf;
    assert text[..|text|] == text;
    ApplyPrefix(pre, BlocksTokens(bs), master);
    BitsInOutput(out, rest, RansBlocksBits(bs) + BitsOf(0, 1), pad);
    RansStreamRead(bs, WordBits(out + rest), 0, pre + master, cap);
  }

  lemma RansOutputEncodes(bs: seq<Block>, master: seq<byte>, data: seq<byte>, out: seq<byte>, pad: seq<bool>)
    requires RansGoodBlocks(bs) && Covers(BlocksTokens(bs), master + data, |master|, |master + data|)
    requires |out| % 2 == 0 && WordBits(out) == RansBlocksBits(bs) + BitsOf(0, 1) + pad && |pad| < 16
    ensures RansEncodes(out, |RansBlocksBits(bs)| + 1, master, data)
  {
    hide *;
    RansEncodesIf(out, |RansBlocksBits(bs)| + 1, master, data) by {
      PaddedLength(|out|, |RansBlocksBits(bs)| + 1, |pad|);
      forall pre: seq<byte>, rest: seq<byte>, cap: nat | |pre + master + data| <= cap
        ensures RansDecode(WordBits(out + rest), 0, pre + master, cap) == Decoded(pre + master + data, |RansBlocksBits(bs)| + 1)
      {
        assert (master + data)[..|master|] == master;
        assert pre + (master + data) == pre + master + data;
        RansDecodesBack(bs, master, master + data, out, pad, pre, rest, cap);
      }
    }
  }

  lemma RansEncodesIf(out: seq<byte>, used: nat, master: seq<byte>, data: seq<byte>)
    requires |out| == 2 * ((used + 15) / 16)
    requires forall pre: seq<byte>, rest: seq<byte>, cap: nat :: |pre + master + data| <= cap ==>
               RansDecode(WordBits(out + rest), 0, pre + master, cap) == Decoded(pre + master + data, used)
    ensures RansEncodes(out, used, master, data)
  {
    hide RansDecode, WordBits;
  }

  ghost function BitCount(rans: bool, bs: seq<Block>, stream: seq<bool>): nat
    requires Finished(rans, bs, stream)
  {
    1 + if rans then |RansBlocksBits(bs)| else |BlocksBits(bs, DefaultLengths())|
  }

  lemma FinishedMeans(rans: bool, bs: seq<Block>, stream: seq<bool>, master: seq<byte>, data: seq<byte>, out: seq<byte>, pad: nat)
    requires Finished(rans, bs, stream) && Covers(BlocksTokens(bs), master + data, |master|, |master + data|)
    requires |out| % 2 == 0 && pad < 16 && WordBits(out) == stream + BitsOf(0, pad)
    ensures Means(rans, out, BitCount(rans, bs, stream), master, data)
  {
    hide Covers, RansGoodBlocks, RansBlocksBits, GoodBlocks, BlocksBits, BlocksTokens, BitsOf, WordBits, Lengths, DefaultLengths,
         RansEncodes, Encodes;
    if rans {
      RansOutputEncodes(bs, master, data, out, BitsOf(0, pad));
    } else {
      OutputEncodes(bs, master, data, out, BitsOf(0, pad));
    }
  }

  /** Flushes the last block and the bit writer. */
  method FinishStream(c: Compressor, master: seq<byte>, ghost data: seq<byte>, csum: bv32)
    returns (r: Compression, ghost used: nat, ghost stuck: seq<Token>)
    requires c.Valid() && c.pos == c.win.end && c.base == |master| && c.win.text == master + data && c.tb.count <= 32000
    modifies c, c.tb, c.tb.bdFreq, c.tb.lFreq, c.bo, c.bo.buf, c.symprev
    ensures r.Compressed? ==> Means(c.useRans, r.out, used, master, data) && r.csum == csum && Split(c.useRans, c.blocks, master, data)
    ensures r.Compressed? ==> BlocksTokens(c.blocks) == old(BlocksTokens(c.blocks) + c.tb.toks)
    ensures r == NoCode ==> StuckSplit(c.useRans, c.blocks, stuck, master, data)
    ensures !r.Faulted?
  {
    hide Compressor.Valid, Covers, Means, BitsOf, Finished, WordBits, BitWriter.Stream, BlocksTokens, BitIO.Holds,
         TokenBuffer.Valid, TokenBuffer.Blank, TokensOk, Lengths, CodedBlocks, FullBlocks, BlockCodable;
    c.Bounds();
    CoversAll(c);
    ghost var before := c.blocks;
    used := 0;
    var ok;
    ghost var b;
    ok, b := c.WriteBlock(true);
    stuck := b.toks;
    if !ok {
      assert StopsAt(before, stuck, master + data, |master|, c.pos);
      return NoCode, used, stuck;
    }
    ghost var pad := if c.bo.bitsLeft < 16 then c.bo.bitsLeft else 0;
    ghost var stream := c.bo.Stream();
    c.bo.Finish();
    FinishedMeans(c.useRans, c.blocks, stream, master, data, c.bo.sink, pad);
    used := BitCount(c.useRans, c.blocks, stream);
    assert c.blocks[..|c.blocks| - 1] == before;
    r := Compressed(c.bo.sink, csum);
  }

  lemma CoversAll(c: Compressor)
    requires c.Valid()
    ensures Covers(BlocksTokens(c.blocks) + c.tb.toks, c.win.text, c.base, c.pos) && CodedBlocks(c.useRans, c.blocks) && FullBlocks(c.blocks)
  {
    hide Covers, CodedBlocks, FullBlocks, Emitted;
  }

  /** The part of a source that is read when size bytes from a position are asked for. */
  function Available(data: seq<byte>, from: nat, size: nat): seq<byte>
    requires from <= |data|
  {
    if from + size <= |data| then data[from..from + size] else data[from..]
  }

  /** Loads and compresses size bytes of input, piece by piece. */
  method CompressAll(c: Compressor, src: ByteSource, size: nat, ghost master: seq<byte>) returns (code: int, csum: bv32, ghost stuck: seq<Token>)
    requires c.Valid() && c.Searching(master) && c.pos == c.win.end && c.tb.count == 0
    requires c.win.text == master && c.base == |master| && src.pos <= |src.data|
    modifies c, c.win, c.win.data, c.win.head, c.win.prev, c.tb, c.tb.ibuf, c.tb.bdFreq, c.tb.lFreq, c.bo, c.bo.buf, c.symprev, src
    ensures code == 0 ==>
      && c.Valid() && c.Searching(master) && c.win.end < c.pos + MIN_MATCH && c.tb.count <= FLUSH_AT && old(src.pos) + size <= |src.data|
      && c.win.text == master + src.data[old(src.pos)..old(src.pos) + size]
      && csum == Fold(CSUM_INIT, src.data[old(src.pos)..old(src.pos) + size])
    ensures code == USER_FAULT ==> old(src.pos) + size > |src.data|
    ensures code == 0 || code == USER_FAULT
            || StuckSplit(c.useRans, c.blocks, stuck, master, Available(src.data, old(src.pos), size))
  {
    hide Compressor.Valid, Compressor.Searching, FullStuck, StuckSplit, Fold, Small;
    ghost var from := src.pos;
    var remaining := size;
    csum, stuck := CSUM_INIT, [];
    InitSmall();
    NothingRead(src.data, from, master);
    c.Bounds();
    while remaining > 0
      invariant c.Valid() && c.Searching(master) && c.win.end < c.pos + MIN_MATCH && c.tb.count <= FLUSH_AT
      invariant from <= src.pos <= |src.data| && src.pos - from == size - remaining && remaining >= 0
      invariant c.win.text == master + src.data[from..src.pos]
      invariant Small(csum) && csum == Fold(CSUM_INIT, src.data[from..src.pos])
    {
      ghost var got := src.data[from..src.pos];
      var piece := c.Load(src, remaining, master);
      if |piece| == 0 {
        return USER_FAULT, csum, stuck;
      }
      csum := Update(csum, piece);
      FoldConcat(CSUM_INIT, got, piece);
      assert got + piece == src.data[from..src.pos];
      assert master + got + piece == master + (got + piece);
      remaining := remaining - |piece|;
      var ok;
      ok, stuck := c.CompressLoaded(master);
      if !ok {
        RestAvailable(src.data, from, src.pos, size, master);
        ghost var all := Available(src.data, from, size);
        StuckWithMore(c.useRans, c.blocks, stuck, c.win.text, all[src.pos - from..], master, all);
        return 1, csum, stuck;
      }
    }
    code := 0;
  }

  lemma RestAvailable(data: seq<byte>, from: nat, pos: nat, size: nat, master: seq<byte>)
    requires from <= pos <= |data| && pos - from <= size
    ensures var all := Available(data, from, size);
            pos - from <= |all| && master + data[from..pos] + all[pos - from..] == master + all
  {
    var all := Available(data, from, size);
    assert data[from..pos] == all[..pos - from];
  }

  lemma NothingRead(data: seq<byte>, from: nat, master: seq<byte>)
    requires from <= |data|
    ensures data[from..from] == [] && master + data[from..from] == master && Fold(CSUM_INIT, data[from..from]) == CSUM_INIT
  {
  }

  /**
    * Compresses size bytes read from src against a master of at most 65535 bytes. The last results are the blocks written
    * and, where no code was found, the tokens of the block that has none; easy data never comes to that.
    */
  method CompressEx(level: nat, master: seq<byte>, src: ByteSource, size: nat)
    returns (r: Compression, ghost used: nat, ghost blocks: seq<Block>, ghost stuck: seq<Token>)
    requires src.pos <= |src.data|
    modifies src
    ensures r.Compressed? ==>
      && old(src.pos) + size <= |src.data|
      && Means(level >= 6, r.out, used, master, src.data[old(src.pos)..old(src.pos) + size])
      && r.csum == Checked(src.data[old(src.pos)..old(src.pos) + size])
      && Split(level >= 6, blocks, master, src.data[old(src.pos)..old(src.pos) + size])
      && Parsed(LevelOf(level), master, src.data[old(src.pos)..old(src.pos) + size], BlocksTokens(blocks))
    ensures r.Faulted? ==> r.code == USER_FAULT && (|master| >= WINDOW || old(src.pos) + size > |src.data|)
    ensures r == NoCode ==> StuckSplit(level >= 6, blocks, stuck, master, Available(src.data, old(src.pos), size))
    ensures r == NoCode ==> !Easy(level >= 6, Available(src.data, old(src.pos), size))
  {
    hide Compressor.Valid, StuckSplit, Split, Fold, Low16, Means, Easy, BlocksTokens, RunTo, Literals;
    used, blocks, stuck := 0, [], [];
    if |master| > WINDOW - 1 {
      return Faulted(USER_FAULT), used, blocks, stuck;
    }
    var c := Begin(level, master);
    var code, csum;
    ghost var all := Available(src.data, src.pos, size);
    code, csum, stuck := CompressAll(c, src, size, master);
    if code == USER_FAULT {
      return Faulted(code), used, blocks, stuck;
    }
    if code != 0 {
      EasyNotStuck(level >= 6, c.blocks, stuck, master, all);
      return NoCode, used, c.blocks, stuck;
    }
    ghost var s := c.State();
    c.Bounds();
    assert RunTo(c.lv, master, c.run, s);
    c.Trailing();
    assert Ends(LevelOf(level), master, all, BlocksTokens(c.blocks) + c.tb.toks, c.run, s);
    r, used, stuck := FinishStream(c, master, all, Low16(csum));
    blocks := c.blocks;
    if r == NoCode {
      EasyNotStuck(level >= 6, c.blocks, stuck, master, all);
    }
  }

  /** The parts of a compressor with the master in the window. */
  method Assemble(level: nat, master: seq<byte>) returns (c: Compressor)
    requires |master| < WINDOW
    ensures c.useRans == (level >= 6) && c.lv == LevelOf(level) && c.Idle() && c.win.text == master && c.tb.count == 0
    ensures fresh({c, c.win, c.tb, c.bo, c.symprev, c.win.data, c.win.head, c.win.prev, c.tb.ibuf, c.tb.bdFreq, c.tb.lFreq, c.bo.buf})
  {
    hide Ring, Sum, AllEntries, BitIO.Holds, MatchWindow.Linked, LevelOf;
    var win := new MatchWindow(master);
    var tb := new TokenBuffer();
    var bo := new BitWriter(4096);
    var symprev := new nat[NUM_SYMBOLS];
    c := new Compressor(level, win, tb, bo, symprev);
  }

  method Begin(level: nat, master: seq<byte>) returns (c: Compressor)
    requires |master| < WINDOW
    ensures c.useRans == (level >= 6) && c.lv == LevelOf(level)
    ensures c.Valid() && c.Searching(master) && c.win.text == master && c.base == |master| == c.pos == c.win.end && c.tb.count == 0
    ensures fresh({c, c.win, c.tb, c.bo, c.symprev, c.win.data, c.win.head, c.win.prev, c.tb.ibuf, c.tb.bdFreq, c.tb.lFreq, c.bo.buf})
  {
    hide Ring, Compressor.Valid, Compressor.Searching, LevelOf, TokenBuffer.Blank, MatchWindow.Linked;
    c := Assemble(level, master);
    c.Start();
  }
}
