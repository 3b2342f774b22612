/** The Huffman-coded LZ77 stream format: what a bit string means, and the bits of a token sequence. */
module UltraFormat {
  import opened BitStrings
  import opened ErrorCodes
  import opened Options
  import opened Canonical
  import opened Tables
  import opened TreeCode
  import opened LzCodes

  // ----- reading -----

  /** The decompressor's code words: literals and distances in one table, lengths in the other. */
  function BdCodes(): (c: seq<Code>)
    ensures |c| == NUM_BD_SYM
  {
    seq(NUM_BD_SYM, i requires 0 <= i < NUM_BD_SYM =>
      if i < NUM_BYTE_SYM then Code(i, 0, false)
      else DCodes(i - NUM_BYTE_SYM); Code(D_CODES[i - NUM_BYTE_SYM].0, D_CODES[i - NUM_BYTE_SYM].1, true))
  }

  function LenCodes(): (c: seq<Code>)
    ensures |c| == NUM_LEN_SYM
  {
    seq(NUM_LEN_SYM, i requires 0 <= i < NUM_LEN_SYM => LenEnc(i); Code(L_CODES[i].0, L_CODES[i].1, false))
  }

  /** The two lookup tables of a block. */
  datatype Lookups = Lookups(bd: seq<Entry>, len: seq<Entry>)

  function Bd(lengths: seq<nat>): (s: seq<nat>)
    requires |lengths| == NUM_SYMBOLS
    ensures |s| == NUM_BD_SYM
  {
    lengths[..NUM_BD_SYM]
  }

  function Len(lengths: seq<nat>): (s: seq<nat>)
    requires |lengths| == NUM_SYMBOLS
    ensures |s| == NUM_LEN_SYM
  {
    lengths[NUM_BD_SYM..]
  }

  /** Both codes fit their lookup tables. */
  predicate Fits(lengths: seq<nat>)
    requires |lengths| == NUM_SYMBOLS
  {
    Total(Bd(lengths)) <= LOOKUP_SIZE && Total(Len(lengths)) <= LOOKUP_SIZE
  }

  function BlockTables(lengths: seq<nat>): (r: Lookups)
    requires |lengths| == NUM_SYMBOLS && Fits(lengths)
    ensures GoodTables(r)
  {
    BlockTablesGood(lengths);
    Lookups(Table(Bd(lengths), BdCodes()), Table(Len(lengths), LenCodes()))
  }

  /** Lookups consume 1..13 bits and yield values and extra bits the format allows. */
  ghost predicate GoodTables(tabs: Lookups)
  {
    && GoodTable(tabs.bd) && GoodTable(tabs.len)
    && (forall w :: 0 <= w < LOOKUP_SIZE ==>
          var c := tabs.bd[w].code; c.extra <= 12 && if c.isDist then 1 <= c.value <= 61440 else c.value < 256)
    && (forall w :: 0 <= w < LOOKUP_SIZE ==>
          var c := tabs.len[w].code; c.extra <= 15 && c.value + Pow2(c.extra) <= MAX_COPY + 1)
  }

  lemma BlockTablesGood(lengths: seq<nat>)
    requires |lengths| == NUM_SYMBOLS && Fits(lengths)
    ensures GoodTables(Lookups(Table(Bd(lengths), BdCodes()), Table(Len(lengths), LenCodes())))
  {
    TableEntries(Bd(lengths), BdCodes());
    TableEntries(Len(lengths), LenCodes());
    ExtraPowers();
    forall c | c in BdCodes()
      ensures c.extra <= 12 && if c.isDist then 1 <= c.value <= 61440 else c.value < 256
    {
      var i :| 0 <= i < NUM_BD_SYM && BdCodes()[i] == c;
      if i >= NUM_BYTE_SYM {
        DCodes(i - NUM_BYTE_SYM);
        DistEnc(i - NUM_BYTE_SYM);
      }
    }
    forall c | c in LenCodes() ensures c.extra <= 15 && c.value + Pow2(c.extra) <= MAX_COPY + 1 {
      var i :| 0 <= i < NUM_LEN_SYM && LenCodes()[i] == c;
      LenEnc(i);
    }
  }

  /** One step of a block: a token, the end mark, or a match nothing can satisfy. */
  datatype Op = Tok(tok: Token) | End | Bad

  /** A code word's value with its extra bits added. */
  function WithExtra(c: Code, t: seq<bool>, p: nat): (r: Parse<nat>)
    ensures r.Got? ==> r.pos == p + c.extra && c.value <= r.value < c.value + Pow2(c.extra)
    ensures r.Failed? ==> r.code == TRUNCATED
  {
    var e := ReadAt(t, p, c.extra);
    if e < 0 then Failed(e) else Got(c.value + e, p + c.extra)
  }

  function ReadOp(tabs: Lookups, t: seq<bool>, p: nat): (r: Parse<Op>)
    requires GoodTables(tabs)
    ensures r.Got? ==> p < r.pos <= |t|
    ensures r.Failed? ==> r.code == TRUNCATED
    ensures r.Got? && r.value.Tok? && r.value.tok.Match? ==> 1 <= r.value.tok.dist && 1 <= r.value.tok.len <= MAX_COPY
  {
    var w := Lookup(tabs.bd, t, p);
    if w < 0 then Failed(w)
    else
      var c, p1 := tabs.bd[w].code, p + tabs.bd[w].len;
      if !c.isDist then Got(Tok(Literal(c.value)), p1)
      else
        match WithExtra(c, t, p1)
        case Failed(e) => Failed(e)
        case Got(dist, p2) =>
          var w2 := Lookup(tabs.len, t, p2);
          if w2 < 0 then Failed(w2)
          else ReadLength(tabs.len[w2], dist, t, p2)
  }

  function ReadLength(entry: Entry, dist: nat, t: seq<bool>, p2: nat): (r: Parse<Op>)
    requires 1 <= entry.len && p2 + entry.len <= |t| && 1 <= dist
    requires entry.code.value + Pow2(entry.code.extra) <= MAX_COPY + 1
    ensures r.Got? ==> p2 < r.pos <= |t|
    ensures r.Failed? ==> r.code == TRUNCATED
    ensures r.Got? && r.value.Tok? && r.value.tok.Match? ==> r.value.tok.dist == dist && 1 <= r.value.tok.len <= MAX_COPY
  {
    if dist == EOB_MARK then Got(End, p2 + entry.len)
    else
      match WithExtra(entry.code, t, p2 + entry.len)
      case Failed(e) => Failed(e)
      case Got(len, p4) => Got(if len == 0 then Bad else Tok(Match(dist, len)), p4)
  }

  /** How a block's token stream ends: at its end mark, at the end of the bits, or at a match with no source. */
  datatype BlockEnd = Ended(hist: seq<byte>, pos: nat) | Truncated(hist: seq<byte>) | Damaged(hist: seq<byte>, pos: nat)

  function ReadBlock(tabs: Lookups, t: seq<bool>, p: nat, hist: seq<byte>): (r: BlockEnd)
    requires GoodTables(tabs)
    ensures hist <= r.hist
    ensures !r.Truncated? ==> p < r.pos <= |t|
    decreases |t| - p
  {
    match ReadOp(tabs, t, p)
    case Failed(_) => Truncated(hist)
    case Got(End, p') => Ended(hist, p')
    case Got(Bad, p') => Damaged(hist, p')
    case Got(Tok(tok), p') =>
      if Applies(tok, hist) then ReadBlock(tabs, t, p', Apply(tok, hist)) else Damaged(hist, p')
  }

  /** A decoded stream: the history it produced, or the error a strict reader reports. */
  datatype Decoding = Decoded(hist: seq<byte>, used: nat) | Rejected

  /** The code lengths of the next block, if they fit the tables. */
  function ReadHeader(t: seq<bool>, p: nat, prev: seq<nat>): (r: Parse<seq<nat>>)
    requires Lengths(prev)
    ensures r.Got? ==> Lengths(r.value) && Fits(r.value) && r.pos > p
    ensures r.Failed? ==> r.code < 0
  {
    match HtDec(t, p, prev)
    case Failed(e) => Failed(e)
    case Got(lengths, p') => if Fits(lengths) then Got(lengths, p') else Failed(DAMAGED)
  }

  /**
    * The meaning of a bit string: blocks until a clear presence bit. A strict reader rejects any fault;
    * a lenient one stops at faults in headers or at the end of the bits, and resumes after a bad match.
    */
  function Decode(t: seq<bool>, p: nat, prev: seq<nat>, hist: seq<byte>, strict: bool): (r: Decoding)
    requires Lengths(prev)
    ensures r.Decoded? ==> hist <= r.hist
    ensures !strict ==> r.Decoded?
    decreases |t| - p
  {
    var present := ReadAt(t, p, 1);
    if present < 0 then (if strict then Rejected else Decoded(hist, p))
    else if present == 0 then Decoded(hist, p + 1)
    else
      match ReadHeader(t, p + 1, prev)
      case Failed(_) => if strict then Rejected else Decoded(hist, p)
      case Got(lengths, p') =>
        match ReadBlock(BlockTables(lengths), t, p', hist)
        case Truncated(h) => if strict then Rejected else Decoded(h, p)
        case Damaged(h, p'') => if strict then Rejected else Decode(t, p'', lengths, h, strict)
        case Ended(h, p'') => Decode(t, p'', lengths, h, strict)
  }

  // ----- writing -----

  /** The token's code words exist. */
  ghost predicate Codable(tok: Token, lengths: seq<nat>)
    requires |lengths| == NUM_SYMBOLS
  {
    match tok
    case Literal(b) => Used(Bd(lengths), b)
    case Match(d, l) =>
      TokenOk(tok) && Used(Bd(lengths), NUM_BYTE_SYM + DistSym(d)) && Used(Len(lengths), LenSym(l))
  }

  function DistCode(lengths: seq<nat>, d: nat): seq<bool>
    requires |lengths| == NUM_SYMBOLS && 1 <= d <= EOB_MARK && Used(Bd(lengths), NUM_BYTE_SYM + DistSym(d))
  {
    DistSymRange(d);
    CodeBits(Bd(lengths), NUM_BYTE_SYM + DistSym(d)) + BitsOf(d - DistBase(DistSym(d)), DistBits(DistSym(d)))
  }

  function LenCode(lengths: seq<nat>, l: nat): seq<bool>
    requires |lengths| == NUM_SYMBOLS && MIN_MATCH <= l <= MAX_COPY && Used(Len(lengths), LenSym(l))
  {
    LenSymRange(l);
    CodeBits(Len(lengths), LenSym(l)) + BitsOf(l - LenBase(LenSym(l)), LenBits(LenSym(l)))
  }

  ghost function TokenBits(tok: Token, lengths: seq<nat>): seq<bool>
    requires |lengths| == NUM_SYMBOLS && Codable(tok, lengths)
  {
    match tok
    case Literal(b) => CodeBits(Bd(lengths), b)
    case Match(d, l) => DistCode(lengths, d) + LenCode(lengths, l)
  }

  ghost predicate CodableAll(toks: seq<Token>, lengths: seq<nat>)
    requires |lengths| == NUM_SYMBOLS
  {
    forall k :: 0 <= k < |toks| ==> Codable(toks[k], lengths)
  }

  ghost function TokensBits(toks: seq<Token>, lengths: seq<nat>): seq<bool>
    requires |lengths| == NUM_SYMBOLS && CodableAll(toks, lengths)
  {
    if toks == [] then [] else TokenBits(toks[0], lengths) + TokensBits(toks[1..], lengths)
  }

  /** The end mark: the distance no match uses, with length 3. */
  predicate EndCodable(lengths: seq<nat>)
    requires |lengths| == NUM_SYMBOLS
  {
    Used(Bd(lengths), NUM_BYTE_SYM + DistSym(EOB_MARK)) && Used(Len(lengths), 0)
  }

  function EndBits(lengths: seq<nat>): seq<bool>
    requires |lengths| == NUM_SYMBOLS && EndCodable(lengths)
  {
    DistCode(lengths, EOB_MARK) + LenCode(lengths, MIN_MATCH)
  }

  datatype Block = Block(lengths: seq<nat>, tl: seq<nat>, toks: seq<Token>)

  ghost predicate GoodBlock(b: Block, prev: seq<nat>)
  {
    && Lengths(b.lengths) && Fits(b.lengths) && Lengths(prev) && Describing(b.tl, b.lengths, prev)
    && CodableAll(b.toks, b.lengths) && EndCodable(b.lengths)
  }

  ghost function BodyBits(b: Block): seq<bool>
    requires |b.lengths| == NUM_SYMBOLS && CodableAll(b.toks, b.lengths) && EndCodable(b.lengths)
  {
    TokensBits(b.toks, b.lengths) + EndBits(b.lengths)
  }

  ghost function BlockBits(b: Block, prev: seq<nat>): seq<bool>
    requires GoodBlock(b, prev)
  {
    BitsOf(1, 1) + (TreeBits(b.lengths, prev, b.tl) + BodyBits(b))
  }

  ghost predicate GoodBlocks(bs: seq<Block>, prev: seq<nat>)
  {
    bs != [] ==> GoodBlock(bs[0], prev) && GoodBlocks(bs[1..], bs[0].lengths)
  }

  ghost function BlocksBits(bs: seq<Block>, prev: seq<nat>): seq<bool>
    requires GoodBlocks(bs, prev)
  {
    if bs == [] then [] else BlockBits(bs[0], prev) + BlocksBits(bs[1..], bs[0].lengths)
  }

  ghost function BlocksTokens(bs: seq<Block>): seq<Token>
  {
    if bs == [] then [] else bs[0].toks + BlocksTokens(bs[1..])
  }
}
