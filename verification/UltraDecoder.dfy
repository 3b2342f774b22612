/** The Huffman LZ77 decompressor: block headers, blocks and the outer loop. */
module UltraDecoder {
  import opened BitStrings
  import opened ErrorCodes
  import opened Options
  import opened BitIO
  import opened Canonical
  import opened Tables
  import opened TreeCode
  import opened TreeReader
  import opened LzCodes
  import opened UltraFormat
  import opened Checksum
  import opened Window
  import opened OutputWindow

  lemma BdTableGood(lengths: seq<nat>)
    requires |lengths| == NUM_SYMBOLS && Fits(lengths)
    ensures BlockTables(lengths) == Lookups(Table(Bd(lengths), BdCodes()), Table(Len(lengths), LenCodes()))
  {
    hide Table;
  }

  /** The next block's header: 1 if there is a block, 0 at the end of the stream, negative on a fault. */
  method DecodeHt(bi: BitReader, symprev: array<nat>, bdTable: array<Entry>, lTable: array<Entry>) returns (ret: int)
    requires bi.Valid() && bdTable != lTable && bdTable.Length == lTable.Length == LOOKUP_SIZE
    requires bdTable != bi.buffer as object && lTable != bi.buffer as object
    requires symprev.Length == NUM_SYMBOLS && Lengths(symprev[..])
    modifies bi, bi.src, bi.buffer, symprev, bdTable, lTable
    ensures bi.Valid() && Lengths(symprev[..])
    ensures old(bi.err) != 0 ==> ret < 0
    ensures old(bi.err) == 0 ==>
              var present := ReadAt(bi.Text(), old(bi.consumed), 1);
              if present <= 0 then ret == present && bi.consumed == old(bi.consumed) + (if present == 0 then 1 else 0)
              else match ReadHeader(bi.Text(), old(bi.consumed) + 1, old(symprev[..]))
                   case Failed(_) => ret < 0
                   case Got(lengths, p) =>
                     ret == 1 && bi.consumed == p && bi.err == 0 && symprev[..] == lengths
                     && BlockTables(lengths) == Lookups(bdTable[..], lTable[..])
  {
    hide HtDec, Table, ReadAt, Total, Lengths, BitReader.Valid;
    PowersOfTwo();
    ghost var prev := symprev[..];
    bi.InText();
    ret := bi.Get(1);
    assert symprev[..] == prev;
    if ret <= 0 {
      return;
    }
    var lengths;
    ret, lengths := ReadTree(bi, symprev, bdTable);
    if ret < 0 {
      return;
    }
    LengthsSize(lengths);
    ret := MkTree(bdTable, Bd(lengths), BdCodes());
    if ret < 0 {
      return;
    }
    ret := MkTree(lTable, Len(lengths), LenCodes());
    if ret < 0 {
      return;
    }
    BdTableGood(lengths);
    ret := 1;
  }

  lemma LengthsSize(lengths: seq<nat>)
    requires Lengths(lengths)
    ensures |lengths| == NUM_SYMBOLS
  {
  }

  /** Reads one literal, match or end mark. */
  method NextOp(bi: BitReader, bdTable: array<Entry>, lTable: array<Entry>) returns (r: int, op: Op)
    requires bi.Valid() && bi.err == 0 && GoodTables(Lookups(bdTable[..], lTable[..]))
    requires bdTable != bi.buffer as object && lTable != bi.buffer as object
    modifies bi, bi.src, bi.buffer
    ensures bi.Valid() && r <= 0
    ensures match ReadOp(Lookups(bdTable[..], lTable[..]), bi.Text(), old(bi.consumed))
            case Failed(e) => r == e && bi.err == e
            case Got(v, p) => r == 0 && op == v && bi.consumed == p && bi.err == 0
  {
    hide Lookup, ReadAt, GoodTable, BitReader.Valid, Pow2;
    ghost var bd, ln, t := bdTable[..], lTable[..], bi.Text();
    EntriesKept(bdTable, lTable, bd, ln);
    op := End;
    var c;
    r, c := Huff(bi, bdTable);
    assert lTable[..] == ln;
    if r < 0 {
      return;
    }
    if !c.isDist {
      return 0, Tok(Literal(c.value));
    }
    ghost var p1 := bi.consumed;
    var dist: nat;
    r, dist := GetExtra(bi, c);
    assert bdTable[..] == bd && lTable[..] == ln;
    if r < 0 {
      return;
    }
    ghost var p2 := bi.consumed;
    var len: nat;
    r, c := Huff(bi, lTable);
    assert bdTable[..] == bd;
    if r < 0 {
      return;
    }
    if dist == EOB_MARK {
      return 0, End;
    }
    r, len := GetExtra(bi, c);
    assert bdTable[..] == bd && lTable[..] == ln;
    if r < 0 {
      return;
    }
    r, op := 0, if len == 0 then Bad else Tok(Match(dist, len));
  }

  lemma EntriesKept(a: array<Entry>, b: array<Entry>, x: seq<Entry>, y: seq<Entry>)
    requires x == a[..] && y == b[..] && GoodTables(Lookups(x, y))
    ensures |x| == |y| == LOOKUP_SIZE == a.Length == b.Length && GoodTable(x) && GoodTable(y)
    ensures forall w :: 0 <= w < LOOKUP_SIZE ==> x[w].code.extra <= 15 && y[w].code.extra <= 15
  {
  }

  /** Adds a code's extra bits to its value. */
  method GetExtra(bi: BitReader, c: Code) returns (r: int, v: nat)
    requires bi.Valid() && bi.err == 0 && c.extra <= 15
    modifies bi, bi.src, bi.buffer
    ensures bi.Valid() && r <= 0
    ensures match WithExtra(c, bi.Text(), old(bi.consumed))
            case Failed(e) => r == e && bi.err == e
            case Got(x, p) => r == 0 && v == x && bi.consumed == p && bi.err == 0
  {
    hide ReadAt, Pow2, BitReader.Valid;
    v := c.value;
    r := 0;
    if c.extra > 0 {
      var e := bi.Get(c.extra);
      if e < 0 {
        return e, v;
      }
      v := v + e;
    } else {
      bi.InText();
      NoBits(bi.Text(), bi.consumed);
    }
  }

  lemma NoBits(t: seq<bool>, p: nat)
    requires p <= |t|
    ensures ReadAt(t, p, 0) == 0
  {
    assert t[p..p] == [];
  }

  // ----- blocks -----

  const END := 0
  const MORE := 1

  /** What an outcome of decompressing a block says about the block as a whole. */
  ghost predicate Outcome(o: int, whole: BlockEnd, tabs: Lookups, t: seq<bool>, p: nat, h: seq<byte>)
    requires GoodTables(tabs)
  {
    if o == MORE then whole == ReadBlock(tabs, t, p, h)
    else if o == END then whole == Ended(h, p)
    else if o == TRUNCATED then whole == Truncated(h)
    else o == DAMAGED && whole == Damaged(h, p)
  }

  lemma BlockToken(tabs: Lookups, t: seq<bool>, p: nat, h: seq<byte>)
    requires GoodTables(tabs)
    ensures var r, whole := ReadOp(tabs, t, p), ReadBlock(tabs, t, p, h);
            && (r.Failed? ==> r.code == TRUNCATED && whole == Truncated(h))
            && (r.Got? && r.value.End? ==> whole == Ended(h, r.pos))
            && (r.Got? && r.value.Bad? ==> whole == Damaged(h, r.pos))
            && (r.Got? && r.value.Tok? && !Applies(r.value.tok, h) ==> whole == Damaged(h, r.pos))
            && (r.Got? && r.value.Tok? && Applies(r.value.tok, h) ==>
                  whole == ReadBlock(tabs, t, r.pos, Apply(r.value.tok, h)))
  {
    hide ReadOp, GoodTables, Applies, Apply;
  }

  /** Carries out one literal or match, or reports a match with no source. */
  method PutToken(cb: CBuffer, tok: Token) returns (o: int)
    requires cb.Valid() && (cb.Synced() ==> cb.Space() >= MAX_COPY)
    requires tok.Match? ==> 1 <= tok.dist && 1 <= tok.len <= MAX_COPY
    modifies cb`tail, cb`produced, cb`hist, cb.data
    ensures cb.Valid() && (o == MORE || o == DAMAGED)
    ensures cb.Synced() ==> (o == MORE <==> Applies(tok, old(cb.hist)))
    ensures cb.hist == if cb.Synced() && o == MORE then Apply(tok, old(cb.hist)) else old(cb.hist)
  {
    hide CBuffer.InStep, Fold;
    if cb.Synced() {
      cb.HaveIsPending();
      if tok.Match? {
        cb.MatchFits(tok.dist, tok.len);
      }
    }
    o := MORE;
    match tok {
      case Literal(b) =>
        cb.PutByte(b);
      case Match(dist, len) =>
        if len > cb.Space() || dist > cb.produced {
          return DAMAGED;
        }
        cb.CopyMatch(dist, len);
    }
  }

  /** Decodes until the end mark, a fault, or until the ring might not hold another match. */
  method DecompressBlock(bi: BitReader, cb: CBuffer, bdTable: array<Entry>, lTable: array<Entry>) returns (o: int)
    requires bi.Valid() && bi.err == 0 && cb.Valid() && (cb.Synced() ==> cb.Space() >= MAX_COPY)
    requires GoodTables(Lookups(bdTable[..], lTable[..])) && cb.data != bi.buffer
    requires bdTable != bi.buffer as object && lTable != bi.buffer as object && bdTable != cb.data as object && lTable != cb.data as object
    modifies bi, bi.src, bi.buffer, cb`tail, cb`produced, cb`hist, cb.data
    ensures bi.Valid() && cb.Valid() && bdTable[..] == old(bdTable[..]) && lTable[..] == old(lTable[..])
    ensures cb.Synced() ==> Outcome(o, old(ReadBlock(Lookups(bdTable[..], lTable[..]), bi.Text(), bi.consumed, cb.hist)),
                                    Lookups(bdTable[..], lTable[..]), bi.Text(), bi.consumed, cb.hist)
    ensures !cb.Synced() ==> cb.hist == old(cb.hist)
    ensures o == MORE || o == END || o == DAMAGED || o == TRUNCATED
    ensures if o == TRUNCATED then bi.err != 0 else bi.err == 0 && bi.consumed > old(bi.consumed)
  {
    hide ReadOp, ReadBlock, GoodTables, Applies, Apply, CBuffer.Valid, BitReader.Valid, CBuffer.Synced, CBuffer.Space;
    ghost var tabs, t, whole := Lookups(bdTable[..], lTable[..]), bi.Text(),
                                ReadBlock(Lookups(bdTable[..], lTable[..]), bi.Text(), bi.consumed, cb.hist);
    o := MORE;
    while true
      invariant bi.Valid() && bi.err == 0 && cb.Valid() && (cb.Synced() ==> cb.Space() >= MAX_COPY)
      invariant bdTable[..] == tabs.bd && lTable[..] == tabs.len && bi.consumed >= old(bi.consumed)
      invariant cb.Synced() ==> whole == ReadBlock(tabs, t, bi.consumed, cb.hist)
      invariant !cb.Synced() ==> cb.hist == old(cb.hist)
      decreases |t| - bi.consumed
    {
      BlockToken(tabs, t, bi.consumed, cb.hist);
      bi.InText();
      var r, op := NextOp(bi, bdTable, lTable);
      assert bdTable[..] == tabs.bd && lTable[..] == tabs.len;
      if r < 0 {
        return r;
      }
      match op {
        case End => return END;
        case Bad => return DAMAGED;
        case Tok(tok) =>
          o := PutToken(cb, tok);
      }
      assert bdTable[..] == tabs.bd && lTable[..] == tabs.len;
      if o != MORE || cb.Space() < MAX_COPY {
        return o;
      }
      bi.InText();
    }
  }

  lemma FlushedSpace(cb: CBuffer)
    requires cb.Valid() && cb.Synced() && cb.Flushed() == |cb.hist|
    ensures cb.Space() >= MAX_COPY
  {
    cb.HaveIsPending();
  }

  lemma OutcomeHist(o: int, whole: BlockEnd, tabs: Lookups, t: seq<bool>, p: nat, h: seq<byte>)
    requires GoodTables(tabs) && Outcome(o, whole, tabs, t, p, h)
    ensures h <= whole.hist && (o < 0 ==> !whole.Ended?) && (o == END ==> whole.Ended?)
    ensures o != MORE ==> h == whole.hist
    ensures if o == TRUNCATED then whole.Truncated? else o != MORE ==> !whole.Truncated? && whole.pos == p
  {
    hide ReadBlock, GoodTables;
  }

  /** The buffer's arithmetic that the loops rely on. */
  lemma BufferTotals(cb: CBuffer)
    requires cb.Valid()
    ensures cb.limit + |cb.sink| == cb.total && |cb.hist| >= cb.base && cb.Flushed() == cb.base + |cb.sink|
    ensures cb.Synced() <==> cb.strict || cb.limit > 0
  {
  }

  /** Decodes one block to its end, writing the ring out whenever it fills up. */
  method OneBlock(bi: BitReader, cb: CBuffer, bdTable: array<Entry>, lTable: array<Entry>) returns (ret: int)
    requires bi.Valid() && bi.err == 0 && cb.Valid() && (cb.Synced() ==> cb.Flushed() == |cb.hist|)
    requires GoodTables(Lookups(bdTable[..], lTable[..])) && cb.data != bi.buffer
    requires bdTable != bi.buffer as object && lTable != bi.buffer as object && bdTable != cb.data as object && lTable != cb.data as object
    modifies bi, bi.src, bi.buffer, cb, cb.data
    ensures bi.Valid() && cb.Valid() && (bi.err == 0 ==> bi.consumed > old(bi.consumed))
    ensures ret <= 0 && (ret < 0 ==> cb.strict)
    ensures var whole := old(ReadBlock(Lookups(bdTable[..], lTable[..]), bi.Text(), bi.consumed, cb.hist));
            && (ret == 0 && cb.Synced() ==>
                  && old(cb.Synced()) && cb.hist == whole.hist && cb.Flushed() == |cb.hist| && (cb.strict ==> whole.Ended?)
                  && if whole.Truncated? then bi.err != 0 else bi.err == 0 && bi.consumed == whole.pos)
            && (ret < 0 ==> !whole.Ended? || |whole.hist| - cb.base > cb.total)
            && (old(cb.Synced()) ==> cb.hist <= whole.hist)
            && (!old(cb.Synced()) ==> cb.hist == old(cb.hist))
  {
    hide GoodTables, ReadBlock, CBuffer.Valid, BitReader.Valid, CBuffer.Synced, CBuffer.Space, Outcome, CBuffer.Flushed;
    ghost var tabs, t, whole := Lookups(bdTable[..], lTable[..]), bi.Text(),
                                ReadBlock(Lookups(bdTable[..], lTable[..]), bi.Text(), bi.consumed, cb.hist);
    ghost var was := cb.Synced();
    while true
      invariant bi.Valid() && bi.err == 0 && cb.Valid() && bi.consumed >= old(bi.consumed)
      invariant bdTable[..] == tabs.bd && lTable[..] == tabs.len
      invariant cb.Synced() ==> was && whole == ReadBlock(tabs, t, bi.consumed, cb.hist) && cb.Flushed() == |cb.hist|
      invariant (was ==> cb.hist <= whole.hist) && (!was ==> cb.hist == old(cb.hist))
      decreases |t| - bi.consumed
    {
      bi.InText();
      BufferTotals(cb);
      if cb.Synced() {
        FlushedSpace(cb);
      }
      var o := DecompressBlock(bi, cb, bdTable, lTable);
      BufferTotals(cb);
      if cb.Synced() {
        OutcomeHist(o, whole, tabs, t, bi.consumed, cb.hist);
      }
      if o < 0 && cb.strict {
        return o;
      }
      ret := cb.Flush();
      BufferTotals(cb);
      if ret < 0 {
        return;
      }
      if o != MORE {
        return;
      }
      MoreGoesOn(o, whole, tabs, t, bi.consumed, cb.hist);
      bi.InText();
    }
  }

  lemma MoreGoesOn(o: int, whole: BlockEnd, tabs: Lookups, t: seq<bool>, p: nat, h: seq<byte>)
    requires GoodTables(tabs) && o == MORE
    ensures Outcome(o, whole, tabs, t, p, h) ==> whole == ReadBlock(tabs, t, p, h)
  {
    hide GoodTables, ReadBlock;
  }

  // ----- the whole stream -----

  /** What decoding the rest of the stream gives, seen from between two blocks. */
  ghost predicate Follows(synced: bool, err: int, t: seq<bool>, p: nat, prev: seq<nat>, h: seq<byte>, strict: bool, d: Decoding)
    requires Lengths(prev)
  {
    if !synced then !strict && d.Decoded? && h <= d.hist
    else if err == 0 then Decode(t, p, prev, h, strict) == d
    else !strict && d.Decoded? && d.hist == h
  }

  /** Decode in terms of its next block. */
  lemma DecodeBlock(t: seq<bool>, p: nat, prev: seq<nat>, h: seq<byte>, strict: bool, lengths: seq<nat>, p': nat, whole: BlockEnd)
    requires Lengths(prev) && ReadAt(t, p, 1) > 0 && ReadHeader(t, p + 1, prev) == Got(lengths, p')
    requires whole == ReadBlock(BlockTables(lengths), t, p', h)
    ensures var d := Decode(t, p, prev, h, strict);
            && (whole.Ended? ==> d == Decode(t, whole.pos, lengths, whole.hist, strict))
            && (whole.Truncated? ==> d == if strict then Rejected else Decoded(whole.hist, p))
            && (whole.Damaged? ==> d == if strict then Rejected else Decode(t, whole.pos, lengths, whole.hist, strict))
            && (d.Decoded? ==> whole.hist <= d.hist)
            && (strict && !whole.Ended? ==> d == Rejected)
  {
    hide ReadHeader, ReadBlock, BlockTables, Fits, Lengths, ReadAt;
  }

  lemma DecodeHeader(t: seq<bool>, p: nat, prev: seq<nat>, h: seq<byte>, strict: bool)
    requires Lengths(prev)
    ensures var present, d := ReadAt(t, p, 1), Decode(t, p, prev, h, strict);
            && (present < 0 ==> d == if strict then Rejected else Decoded(h, p))
            && (present == 0 ==> d == Decoded(h, p + 1))
            && (present > 0 && ReadHeader(t, p + 1, prev).Failed? ==> d == if strict then Rejected else Decoded(h, p))
  {
    hide ReadHeader, ReadBlock, BlockTables, Fits, Lengths, ReadAt;
  }

  /** What the decompressor reports, given the meaning of the whole stream. */
  ghost predicate Reports(d: Decoding, base: nat, limit: nat, strict: bool, ret: int, out: seq<byte>, csum: bv32, used: nat)
  {
    if strict && !(d.Decoded? && |d.hist| - base <= limit) then ret < 0
    else
      && d.Decoded? && |d.hist| >= base && csum == Checked(out)
      && ret == (if |d.hist| - base < limit then |d.hist| - base else limit)
      && out == d.hist[base..base + ret]
      && (strict ==> used == d.used)
  }

  /** The next header in terms of what the rest of the stream means. */
  lemma FollowsHeader(ret: int, synced: bool, err: int, t: seq<bool>, p: nat, prev: seq<nat>, h: seq<byte>, strict: bool, d: Decoding)
    requires Lengths(prev) && Follows(synced, err, t, p, prev, h, strict, d)
    requires err != 0 ==> ret < 0
    requires err == 0 ==> var present := ReadAt(t, p, 1);
                          if present <= 0 then ret == present
                          else ReadHeader(t, p + 1, prev).Failed? ==> ret < 0
    requires ret <= 0
    requires ret == 0 ==> err == 0 && ReadAt(t, p, 1) == 0
    requires ret < 0 && err == 0 && ReadAt(t, p, 1) > 0 ==> ReadHeader(t, p + 1, prev).Failed?
    ensures ret < 0 && strict ==> d == Rejected
    ensures !(ret < 0 && strict) ==> d.Decoded? && h <= d.hist && (synced ==> d.hist == h)
    ensures strict && ret == 0 && synced ==> d == Decoded(h, p + 1)
  {
    hide ReadHeader, Decode, Lengths, ReadAt;
    DecodeHeader(t, p, prev, h, strict);
  }

  lemma ReportEnd(cb: CBuffer, d: Decoding, used: nat)
    requires cb.Valid() && (cb.Synced() ==> cb.Flushed() == |cb.hist|)
    requires d.Decoded? && cb.hist <= d.hist && (cb.Synced() ==> d.hist == cb.hist) && (cb.strict ==> used == d.used)
    ensures Reports(d, cb.base, cb.total, cb.strict, cb.total - cb.limit, cb.sink, Low16(cb.csum), used)
  {
    hide Fold, Low16, Ring;
    PrefixAt(cb.sink, cb.hist, d.hist, cb.base);
  }

  lemma PrefixAt(s: seq<byte>, h: seq<byte>, h': seq<byte>, base: nat)
    requires base <= |h| && h <= h' && s <= h[base..]
    ensures base + |s| <= |h'| && s == h'[base..base + |s|]
  {
    assert h'[..|h|] == h;
    assert h[base..][..|s|] == s;
  }

  /** One block in terms of what the rest of the stream means. */
  lemma FollowsBlock(ret: int, was: bool, synced: bool, err: int, p': nat, t: seq<bool>, p: nat, prev: seq<nat>, h: seq<byte>,
                     h': seq<byte>, strict: bool, d: Decoding, lengths: seq<nat>, at: nat, whole: BlockEnd, base: nat, total: nat)
    requires Lengths(prev) && Follows(was, 0, t, p, prev, h, strict, d) && base <= |h|
    requires ReadAt(t, p, 1) > 0 && ReadHeader(t, p + 1, prev) == Got(lengths, at)
    requires whole == ReadBlock(BlockTables(lengths), t, at, h)
    requires ret == 0 && synced ==> was && h' == whole.hist && (strict ==> whole.Ended?)
                                    && if whole.Truncated? then err != 0 else err == 0 && p' == whole.pos
    requires ret < 0 ==> strict && was && (!whole.Ended? || |whole.hist| - base > total)
    requires (was ==> h' <= whole.hist) && (!was ==> h' == h) && (!synced ==> !strict)
    ensures ret < 0 ==> strict && !(d.Decoded? && |d.hist| - base <= total)
    ensures ret == 0 ==> Follows(synced, err, t, p', lengths, h', strict, d)
  {
    hide ReadAt, ReadHeader, ReadBlock, Decode, Lengths, BlockTables;
    DecodeBlock(t, p, prev, h, strict, lengths, at, whole);
    if !strict {
      LenientDecodes(t, p, prev, h);
    }
  }

  lemma LenientDecodes(t: seq<bool>, p: nat, prev: seq<nat>, h: seq<byte>)
    requires Lengths(prev)
    ensures Decode(t, p, prev, h, false).Decoded?
  {
    hide ReadAt, ReadHeader, ReadBlock, Lengths, BlockTables;
  }

  /** One round of the outer loop: a header and, if there is one, a block. */
  method Round(bi: BitReader, cb: CBuffer, symprev: array<nat>, bdTable: array<Entry>, lTable: array<Entry>, ghost d: Decoding)
    returns (ret: int, more: bool)
    requires bi.Valid() && cb.Valid() && (cb.Synced() ==> cb.Flushed() == |cb.hist|) && cb.data != bi.buffer
    requires symprev.Length == NUM_SYMBOLS && Lengths(symprev[..]) && bdTable != lTable
    requires bdTable.Length == lTable.Length == LOOKUP_SIZE && bdTable != bi.buffer as object && lTable != bi.buffer as object
    requires bdTable != cb.data as object && lTable != cb.data as object && symprev != cb.data as object
    requires symprev != bi.buffer as object && symprev != bdTable as object && symprev != lTable as object
    requires Follows(cb.Synced(), bi.err, bi.Text(), bi.consumed, symprev[..], cb.hist, cb.strict, d)
    modifies bi, bi.src, bi.buffer, symprev, bdTable, lTable, cb, cb.data
    ensures bi.Valid() && cb.Valid() && Lengths(symprev[..])
    ensures more ==> (cb.Synced() ==> cb.Flushed() == |cb.hist|) && old(bi.err) == 0
                     && (bi.err == 0 ==> bi.consumed > old(bi.consumed))
                     && Follows(cb.Synced(), bi.err, bi.Text(), bi.consumed, symprev[..], cb.hist, cb.strict, d)
    ensures ret < 0 ==> cb.strict && !(d.Decoded? && |d.hist| - cb.base <= cb.total)
    ensures ret >= 0 && !more ==> (cb.Synced() ==> cb.Flushed() == |cb.hist|) && d.Decoded? && cb.hist <= d.hist
                                  && (cb.Synced() ==> d.hist == cb.hist) && (cb.strict ==> bi.consumed == d.used)
  {
    hide ReadAt, ReadHeader, ReadBlock, Decode, Lengths, CBuffer.Valid, BitReader.Valid, Follows, CBuffer.Synced, CBuffer.Flushed,
         GoodTables;
    bi.InText();
    BufferTotals(cb);
    ghost var t, prev, p, err, h, was := bi.Text(), symprev[..], bi.consumed, bi.err, cb.hist, cb.Synced();
    ret := DecodeHt(bi, symprev, bdTable, lTable);
    if ret <= 0 {
      FollowsHeader(ret, was, err, t, p, prev, h, cb.strict, d);
      more := false;
      ret := if cb.strict then ret else 0;
      return;
    }
    ghost var lengths, at := symprev[..], bi.consumed;
    ghost var whole := ReadBlock(BlockTables(lengths), t, at, h);
    ret := OneBlock(bi, cb, bdTable, lTable);
    assert symprev[..] == lengths;
    BufferTotals(cb);
    FollowsBlock(ret, was, cb.Synced(), bi.err, bi.consumed, t, p, prev, h, cb.hist, cb.strict, d, lengths, at, whole, cb.base, cb.total);
    more := ret == 0;
  }

  /** Decompresses a whole stream against a master, up to a limit; strict when the bits used are wanted back. */
  method DecompressorUltra(src: ByteSource, master: seq<byte>, limit: nat, strict: bool)
    returns (ret: int, out: seq<byte>, csum: bv32, used: nat)
    requires src.pos == 0 && |master| < WINDOW
    modifies src
    ensures Lengths(DefaultLengths())
    ensures Reports(Decode(WordBits(src.data), 0, DefaultLengths(), master, strict), |master|, limit, strict, ret, out, csum, used)
  {
    hide ReadAt, ReadHeader, ReadBlock, Decode, Lengths, Fold, Ring, CBuffer.Valid, BitReader.Valid, Follows, WordBits, Low16, DefaultLengths;
    DefaultIsLengths();
    var cb := new CBuffer(master, limit, strict);
    var bi := new BitReader(src);
    var symprev := new nat[NUM_SYMBOLS](_ => 0);
    FillDefault(symprev);
    var bdTable := new Entry[LOOKUP_SIZE](_ => FILLER);
    var lTable := new Entry[LOOKUP_SIZE](_ => FILLER);
    ghost var d := Decode(WordBits(src.data), 0, DefaultLengths(), master, strict);
    FollowsStart(cb.Synced(), WordBits(src.data), DefaultLengths(), master, strict, d);
    out, csum, used := [], 0, 0;
    var more := true;
    while more
      invariant bi.Valid() && cb.Valid() && Lengths(symprev[..])
      invariant more ==> (cb.Synced() ==> cb.Flushed() == |cb.hist|)
                         && Follows(cb.Synced(), bi.err, bi.Text(), bi.consumed, symprev[..], cb.hist, cb.strict, d)
      invariant !more ==> (cb.Synced() ==> cb.Flushed() == |cb.hist|) && d.Decoded? && cb.hist <= d.hist
                          && (cb.Synced() ==> d.hist == cb.hist) && (cb.strict ==> bi.consumed == d.used)
      decreases more, bi.err == 0, |bi.Text()| - bi.consumed
    {
      bi.InText();
      ret, more := Round(bi, cb, symprev, bdTable, lTable, d);
      if ret < 0 {
        return;
      }
    }
    used := bi.consumed;
    BufferTotals(cb);
    ReportEnd(cb, d, used);
    ret, out, csum := limit - cb.limit, cb.sink, Low16(cb.csum);
  }

  lemma FollowsStart(synced: bool, t: seq<bool>, prev: seq<nat>, h: seq<byte>, strict: bool, d: Decoding)
    requires Lengths(prev) && d == Decode(t, 0, prev, h, strict) && (strict ==> synced)
    ensures Follows(synced, 0, t, 0, prev, h, strict, d)
  {
    hide Decode, Lengths;
    if !strict {
      LenientDecodes(t, 0, prev, h);
    }
  }

  lemma DefaultIsLengths()
    ensures Lengths(DefaultLengths())
  {
    DefaultFacts();
  }
}
