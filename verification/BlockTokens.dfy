/** The compressor's intermediate buffer of 16-bit entries, with the symbol counts of the block. */
module BlockTokens {
  import opened BitStrings
  import opened Tables
  import opened Tally
  import opened LzCodes

  const IBUF_SIZE := 32768

  /** A distance symbol, its extra bits if it has any. */
  function DistEntries(dist: nat): (e: seq<nat>)
    requires 1 <= dist <= EOB_MARK
    ensures 1 <= |e| <= 2
  {
    var ds := DistSym(dist);
    DistSymRange(dist);
    [ds + 256] + if DistBits(ds) > 0 then [dist - DistBase(ds)] else []
  }

  /** The entries of one token: a byte, or a distance and a plain length. */
  function Entries(tok: Token): (e: seq<nat>)
    requires TokenOk(tok)
    ensures 1 <= |e| <= 3
  {
    match tok
    case Literal(b) => [b]
    case Match(d, l) => DistEntries(d) + [l]
  }

  predicate TokensOk(toks: seq<Token>)
  {
    forall k :: 0 <= k < |toks| ==> TokenOk(toks[k])
  }

  function AllEntries(toks: seq<Token>): seq<nat>
    requires TokensOk(toks)
  {
    if toks == [] then [] else Entries(toks[0]) + AllEntries(toks[1..])
  }

  lemma {:induction false} AppendEntries(toks: seq<Token>, tok: Token)
    requires TokensOk(toks) && TokenOk(tok)
    ensures TokensOk(toks + [tok]) && AllEntries(toks + [tok]) == AllEntries(toks) + Entries(tok)
  {
    if toks == [] {
      assert ([tok])[1..] == [];
    } else {
      AppendEntries(toks[1..], tok);
      assert (toks + [tok])[1..] == toks[1..] + [tok];
    }
  }

  // ----- the symbols of a block and their counts -----

  /** The symbols of a token. */
  function Syms(tok: Token): (s: seq<nat>)
    requires TokenOk(tok)
    ensures forall k :: 0 <= k < |s| ==> s[k] < NUM_SYMBOLS
  {
    match tok
    case Literal(b) => [b]
    case Match(d, l) => [NUM_BYTE_SYM + DistSym(d), FIRST_LEN + LenSym(l)]
  }

  function EndSyms(): (s: seq<nat>)
    ensures |s| == 2 && s[0] != s[1] && forall k :: 0 <= k < |s| ==> s[k] < NUM_SYMBOLS
  {
    [NUM_BYTE_SYM + DistSym(EOB_MARK), FIRST_LEN]
  }

  /** All symbols of a block, with the end mark. */
  function BlockSyms(toks: seq<Token>): (s: seq<nat>)
    requires TokensOk(toks)
    ensures |s| >= 2 && forall k :: 0 <= k < |s| ==> s[k] < NUM_SYMBOLS
  {
    if toks == [] then EndSyms() else Syms(toks[0]) + BlockSyms(toks[1..])
  }

  function Counts(s: seq<nat>): (c: seq<nat>)
    ensures |c| == NUM_SYMBOLS
  {
    seq(NUM_SYMBOLS, v requires 0 <= v < NUM_SYMBOLS => CountOf(s, v))
  }

  /** How often each symbol occurs in a block, the end mark included. */
  function BlockCounts(toks: seq<Token>): (c: seq<nat>)
    requires TokensOk(toks)
    ensures |c| == NUM_SYMBOLS
  {
    Counts(BlockSyms(toks))
  }

  /** The counts of bytes and distance symbols. */
  function BdCounts(toks: seq<Token>): (c: seq<nat>)
    requires TokensOk(toks)
    ensures |c| == NUM_BD_SYM
  {
    BlockCounts(toks)[..NUM_BD_SYM]
  }

  function LenCounts(toks: seq<Token>): (c: seq<nat>)
    requires TokensOk(toks)
    ensures |c| == NUM_LEN_SYM
  {
    BlockCounts(toks)[NUM_BD_SYM..]
  }

  lemma {:induction false} AppendCount(toks: seq<Token>, tok: Token, v: nat)
    requires TokensOk(toks) && TokenOk(tok)
    ensures TokensOk(toks + [tok]) && CountOf(BlockSyms(toks + [tok]), v) == CountOf(BlockSyms(toks), v) + CountOf(Syms(tok), v)
  {
    hide Syms, EndSyms, CountOf, TokenOk;
    if toks == [] {
      assert [] + [tok] == [tok] && [tok][1..] == [];
      CountConcat(Syms(tok), EndSyms(), v);
    } else {
      assert (toks + [tok])[1..] == toks[1..] + [tok];
      AppendCount(toks[1..], tok, v);
      CountConcat(Syms(toks[0]), BlockSyms(toks[1..] + [tok]), v);
      CountConcat(Syms(toks[0]), BlockSyms(toks[1..]), v);
    }
  }

  /** Every symbol of every token is counted. */
  lemma {:induction false} TokenCounted(toks: seq<Token>, k: nat, j: nat)
    requires TokensOk(toks) && k < |toks| && j < |Syms(toks[k])|
    ensures BlockCounts(toks)[Syms(toks[k])[j]] > 0
  {
    hide Syms, EndSyms, TokenOk;
    var v := Syms(toks[k])[j];
    CountConcat(Syms(toks[0]), BlockSyms(toks[1..]), v);
    if k == 0 {
      CountedOnce(Syms(toks[0]), j);
    } else {
      assert toks[1..][k - 1] == toks[k];
      TokenCounted(toks[1..], k - 1, j);
    }
  }

  lemma {:induction false} EndCounted(toks: seq<Token>, j: nat)
    requires TokensOk(toks) && j < 2
    ensures BlockCounts(toks)[EndSyms()[j]] > 0
  {
    hide Syms, EndSyms, TokenOk;
    if toks == [] {
      CountedOnce(EndSyms(), j);
    } else {
      CountConcat(Syms(toks[0]), BlockSyms(toks[1..]), EndSyms()[j]);
      EndCounted(toks[1..], j);
    }
  }

  lemma NewCounts(toks: seq<Token>, tok: Token)
    requires TokensOk(toks) && TokenOk(tok)
    ensures TokensOk(toks + [tok])
    ensures tok.Literal? ==> BlockCounts(toks + [tok]) == OneMore(BlockCounts(toks), tok.b)
    ensures tok.Match? ==> BlockCounts(toks + [tok])
                           == OneMore(OneMore(BlockCounts(toks), NUM_BYTE_SYM + DistSym(tok.dist)), FIRST_LEN + LenSym(tok.len))
  {
    hide BlockSyms, DistSym, LenSym;
    forall v: nat | v < NUM_SYMBOLS ensures BlockCounts(toks + [tok])[v] == BlockCounts(toks)[v] + CountOf(Syms(tok), v) {
      AppendCount(toks, tok, v);
    }
    if tok.Literal? {
      OfOne(tok.b);
    } else {
      OfTwo(NUM_BYTE_SYM + DistSym(tok.dist), FIRST_LEN + LenSym(tok.len));
    }
  }

  function OneMore(c: seq<nat>, v: nat): (r: seq<nat>)
    requires v < |c|
    ensures |r| == |c|
  {
    c[v := c[v] + 1]
  }

  class TokenBuffer {
    const ibuf: array<nat>
    const bdFreq: array<nat>
    const lFreq: array<nat>
    var count: nat
    ghost var toks: seq<Token>

    ghost predicate Sized()
      reads this
    {
      && ibuf.Length == IBUF_SIZE && bdFreq.Length == NUM_BD_SYM && lFreq.Length == NUM_LEN_SYM
      && ibuf != bdFreq && ibuf != lFreq && bdFreq != lFreq && count <= IBUF_SIZE
    }

    /** Nothing buffered and nothing counted. */
    ghost predicate Blank()
      reads this, bdFreq, lFreq
    {
      && Sized() && toks == [] && count == 0
      && bdFreq[..] == seq(NUM_BD_SYM, _ => 0) && lFreq[..] == seq(NUM_LEN_SYM, _ => 0)
    }

    /** The entries are those of the tokens, and the counts those of the block with its end mark. */
    ghost predicate Valid()
      reads this, ibuf, bdFreq, lFreq
    {
      && Sized() && TokensOk(toks) && ibuf[..count] == AllEntries(toks)
      && bdFreq[..] == BdCounts(toks) && lFreq[..] == LenCounts(toks)
      && Sum(bdFreq[..]) <= count + 1 && Sum(lFreq[..]) <= count + 1
    }

    method Push(v: nat)
      requires Sized() && count < IBUF_SIZE
      modifies this`count, ibuf
      ensures Sized() && count == old(count) + 1 && ibuf[..count] == old(ibuf[..count]) + [v]
    {
      ibuf[count] := v;
      count := count + 1;
      assert ibuf[..count] == ibuf[..count - 1] + [v];
    }

    /** Counts one occurrence of a symbol. */
    method Count(freq: array<nat>, sym: nat)
      requires sym < freq.Length
      modifies freq
      ensures freq[..] == OneMore(old(freq[..]), sym) && Sum(freq[..]) == old(Sum(freq[..])) + 1
    {
      ghost var was := freq[..];
      freq[sym] := freq[sym] + 1;
      assert freq[..] == was[sym := was[sym] + 1];
      SumUpdate(was, sym, was[sym] + 1);
    }

    method PutLiteral(b: byte)
      requires Valid() && count < IBUF_SIZE
      modifies this`count, this`toks, ibuf, bdFreq
      ensures Valid() && toks == old(toks) + [Literal(b)] && count == old(count) + 1
    {
      hide Sum, AllEntries, Counts, BlockSyms, TokensOk;
      ghost var len := lFreq[..];
      AppendEntries(toks, Literal(b));
      NewCounts(toks, Literal(b));
      Count(bdFreq, b);
      Push(b);
      assert lFreq[..] == len;
      toks := toks + [Literal(b)];
    }

    /** Symbol and extra bits by ranges. */
    lemma DistParts(dist: nat)
      requires 1 <= dist <= MAX_DIST
      ensures DistSym(dist) == if dist <= 15 then dist - 1 else if dist <= 255 then (dist - 16) / 16 + 15
                               else if dist <= 4095 then (dist - 256) / 256 + 30 else (dist - 4096) / 4096 + 45
      ensures DistEntries(dist) == if dist <= 15 then [dist + 255] else
                [DistSym(dist) + 256] + [if dist <= 255 then (dist - 16) % 16 else if dist <= 4095 then (dist - 256) % 256
                                         else (dist - 4096) % 4096]
    {
      DistEnc(DistSym(dist));
    }

    /** The distance's symbol and, from 16 on, its extra bits. */
    method EncodeDist(dist: nat)
      requires Sized() && count + 2 <= IBUF_SIZE && 1 <= dist <= MAX_DIST
      modifies this`count, ibuf, bdFreq
      ensures Sized() && ibuf[..count] == old(ibuf[..count]) + DistEntries(dist) && count <= old(count) + 2
      ensures bdFreq[..] == OneMore(old(bdFreq[..]), NUM_BYTE_SYM + DistSym(dist)) && Sum(bdFreq[..]) == old(Sum(bdFreq[..])) + 1
    {
      hide Sum, DistEntries, DistSym;
      DistParts(dist);
      var sym, extra;
      if dist <= 15 {
        sym := dist - 1 + NUM_BYTE_SYM;
        Count(bdFreq, sym);
        Push(dist + 256 - 1);
        return;
      }
      if dist <= 255 {
        sym := (dist - 16) / 16 + 15 + NUM_BYTE_SYM;
        extra := (dist - 16) % 16;
      } else if dist <= 4095 {
        sym := (dist - 256) / 256 + 30 + NUM_BYTE_SYM;
        extra := (dist - 256) % 256;
      } else {
        sym := (dist - 4096) / 4096 + 45 + NUM_BYTE_SYM;
        extra := (dist - 4096) % 4096;
      }
      Count(bdFreq, sym);
      Push(sym - NUM_BYTE_SYM + 256);
      Push(extra);
    }

    /** The plain length; its symbol is only counted. */
    method EncodeLen(len: nat)
      requires Sized() && count < IBUF_SIZE && MIN_MATCH <= len <= MAX_COPY
      modifies this`count, ibuf, lFreq
      ensures Sized() && ibuf[..count] == old(ibuf[..count]) + [len] && count == old(count) + 1
      ensures lFreq[..] == OneMore(old(lFreq[..]), LenSym(len)) && Sum(lFreq[..]) == old(Sum(lFreq[..])) + 1
    {
      hide Sum;
      var sym;
      if len <= 10 {
        sym := len - 3;
      } else if len <= 26 {
        sym := (len - 11) / 2 + 8;
      } else if len <= 90 {
        sym := (len - 27) / 8 + 16;
      } else if len <= 154 {
        sym := 24;
      } else if len <= 666 {
        sym := 25;
      } else if len <= 2714 {
        sym := 26;
      } else {
        sym := 27;
      }
      Count(lFreq, sym);
      Push(len);
    }

    method PutMatch(dist: nat, len: nat)
      requires Valid() && count + 3 <= IBUF_SIZE && TokenOk(Match(dist, len))
      modifies this`count, this`toks, ibuf, bdFreq, lFreq
      ensures Valid() && toks == old(toks) + [Match(dist, len)] && old(count) < count <= old(count) + 3
    {
      hide Sum, AllEntries, Counts, BlockSyms, DistEntries, TokensOk, DistSym, LenSym;
      ghost var ln, entries := lFreq[..], ibuf[..count];
      AppendEntries(toks, Match(dist, len));
      NewCounts(toks, Match(dist, len));
      EncodeDist(dist);
      assert lFreq[..] == ln;
      ghost var bd' := bdFreq[..];
      EncodeLen(len);
      assert bdFreq[..] == bd';
      assert ibuf[..count] == entries + Entries(Match(dist, len));
      toks := toks + [Match(dist, len)];
    }

    constructor ()
      ensures Blank() && fresh(ibuf) && fresh(bdFreq) && fresh(lFreq)
    {
      ibuf := new nat[IBUF_SIZE](_ => 0);
      bdFreq := new nat[NUM_BD_SYM](_ => 0);
      lFreq := new nat[NUM_LEN_SYM](_ => 0);
      count, toks := 0, [];
    }

    /** Starts the next block with nothing buffered and nothing counted. */
    method Clear()
      requires Valid()
      modifies this`count, this`toks, bdFreq, lFreq
      ensures Blank()
    {
      forall i | 0 <= i < NUM_BD_SYM {
        bdFreq[i] := 0;
      }
      forall i | 0 <= i < NUM_LEN_SYM {
        lFreq[i] := 0;
      }
      count, toks := 0, [];
    }

    /** Counts the symbols of the end mark before anything else. */
    method CountEnd()
      requires Blank()
      modifies bdFreq, lFreq
      ensures Valid() && toks == [] && count == 0
    {
      hide Sum;
      ZeroSum(NUM_BD_SYM);
      ZeroSum(NUM_LEN_SYM);
      ghost var len := lFreq[..];
      var sym := FindDistSym(EOB_MARK);
      Count(bdFreq, NUM_BYTE_SYM + sym);
      assert lFreq[..] == len;
      ghost var bd' := bdFreq[..];
      Count(lFreq, 0);
      assert bdFreq[..] == bd';
      OfTwo(NUM_BYTE_SYM + sym, FIRST_LEN);
    }
  }
}
