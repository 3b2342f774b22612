/** The rANS block format (method 10): what a bit string means, and the bits of a token sequence. */
module RansFormat {
  import opened BitStrings
  import opened Options
  import opened Tables
  import opened LzCodes
  import opened BlockTokens
  import opened UltraFormat
  import opened Rans
  import opened RansCoder

  // ----- writing -----

  /** The extra bits of a token, in the order its symbols need them. */
  function Extras(tok: Token): seq<bool>
    requires TokenOk(tok)
  {
    match tok
    case Literal(_) => []
    case Match(d, l) =>
      DistSymRange(d);
      LenSymRange(l);
      BitsOf(d - DistBase(DistSym(d)), DistBits(DistSym(d))) + BitsOf(l - LenBase(LenSym(l)), LenBits(LenSym(l)))
  }

  function EndExtras(): seq<bool>
  {
    DistSymRange(EOB_MARK);
    BitsOf(EOB_MARK - DistBase(DistSym(EOB_MARK)), DistBits(DistSym(EOB_MARK)))
  }

  function BlockExtras(toks: seq<Token>): seq<bool>
    requires TokensOk(toks)
  {
    if toks == [] then EndExtras() else Extras(toks[0]) + BlockExtras(toks[1..])
  }

  /** n-bit fields one after the other. */
  function Fields(s: seq<nat>, n: nat): (b: seq<bool>)
    ensures |b| == |s| * n
  {
    if s == [] then [] else Fields(s[..|s| - 1], n) + BitsOf(s[|s| - 1], n)
  }

  /** Two bytes, the high one first. */
  function TwoBytes(v: nat): (b: seq<bool>)
    ensures |b| == 16
  {
    BitsOf(v / 256, 8) + BitsOf(v % 256, 8)
  }

  function BlockTable(toks: seq<Token>): (tab: RansTable)
    requires TokensOk(toks)
    ensures |tab.freq| == |tab.cum| == MAX_SYMS
  {
    Normalised(BlockCounts(toks))
  }

  function BlockBytes(toks: seq<Token>): seq<byte>
    requires TokensOk(toks)
  {
    Packed(EncodeAll(BlockTable(toks), BlockSyms(toks)))
  }

  /** Presence bit, symbol count, byte count, 12-bit frequencies, rANS bytes, extra bits. */
  function RansBits(toks: seq<Token>): seq<bool>
    requires TokensOk(toks)
  {
    BitsOf(1, 1) + (TwoBytes(|BlockSyms(toks)|) + (TwoBytes(|BlockBytes(toks)|)
      + (Fields(BlockTable(toks).freq, 12) + (Fields(BlockBytes(toks), 8) + BlockExtras(toks)))))
  }

  /** The block's counts normalise to a table the coder can use, and its sizes fit their 16-bit fields. */
  ghost predicate RansGood(toks: seq<Token>)
  {
    TokensOk(toks) && Fair(BlockTable(toks)) && Faithful(BlockCounts(toks), BlockTable(toks)) && |BlockSyms(toks)| <= 32765
  }

  // ----- reading -----

  /** n fields of the given width. */
  function ReadFields(t: seq<bool>, p: nat, n: nat, width: nat): (r: Parse<seq<nat>>)
    ensures r.Got? ==> |r.value| == n && r.pos == p + n * width && forall k :: 0 <= k < n ==> r.value[k] < Pow2(width)
  {
    if n == 0 then Got([], p)
    else
      match ReadFields(t, p, n - 1, width)
      case Failed(e) => Failed(e)
      case Got(s, p') =>
        var v := ReadAt(t, p', width);
        if v < 0 then Failed(v) else Got(s + [v], p' + width)
  }

  datatype RansHeader = RansHeader(nsyms: nat, tab: RansTable, data: seq<byte>)

  function ReadRansHeader(t: seq<bool>, p: nat): (r: Parse<RansHeader>)
    ensures r.Got? ==> r.pos >= p && |r.value.tab.freq| == |r.value.tab.cum| == MAX_SYMS
  {
    assert Pow2(8) == 256;
    match ReadFields(t, p, 4, 8)
    case Failed(e) => Failed(e)
    case Got(n, p1) =>
      match ReadFields(t, p1, MAX_SYMS, 12)
      case Failed(e) => Failed(e)
      case Got(freqs, p2) =>
        match ReadFields(t, p2, n[2] * 256 + n[3], 8)
        case Failed(e) => Failed(e)
        case Got(data, p3) => Got(RansHeader(n[0] * 256 + n[1], Normalised(freqs), data), p3)
  }

  /** The history after a match, cut at the output limit. */
  function CopyUpTo(hist: seq<byte>, dist: nat, len: nat, cap: nat): (h: seq<byte>)
    requires 1 <= dist <= |hist| <= cap
    ensures hist <= h && |h| <= cap
  {
    Copy(hist, dist, if len <= cap - |hist| then len else cap - |hist|)
  }

  /** How a block's symbols end: normally, or with an error. */
  datatype RansEnd = Done(hist: seq<byte>, pos: nat) | Fault

  /** Decodes the remaining symbols of a block; cap is the longest history the output limit allows. */
  function ReadRansBody(tab: RansTable, d: Puller, t: seq<bool>, p: nat, left: nat, hist: seq<byte>, cap: nat): (r: RansEnd)
    requires |tab.freq| == |tab.cum| == MAX_SYMS && |hist| <= cap
    ensures r.Done? ==> hist <= r.hist && |r.hist| <= cap && r.pos >= p
    decreases left
  {
    if left == 0 then Done(hist, p)
    else
      var (sym, d1) := DecodeOne(tab, d);
      if sym < NUM_BYTE_SYM then ReadRansBody(tab, d1, t, p, left - 1, if |hist| < cap then hist + [sym as byte] else hist, cap)
      else if sym < FIRST_LEN then
        var ds := sym - NUM_BYTE_SYM;
        var e := ReadAt(t, p, DistBits(ds));
        if e < 0 then Fault
        else
          var dist, p1 := DistBase(ds) + e, p + DistBits(ds);
          if dist == EOB_MARK || left == 1 then Done(hist, p1)
          else
            var (sym2, d2) := DecodeOne(tab, d1);
            var ls := if sym2 < FIRST_LEN then 0 else sym2 - FIRST_LEN;
            var e2 := ReadAt(t, p1, LenBits(ls));
            if e2 < 0 || !Reachable(hist, dist) then Fault
            else ReadRansBody(tab, d2, t, p1 + LenBits(ls), left - 2, CopyUpTo(hist, dist, LenBase(ls) + e2, cap), cap)
      else ReadRansBody(tab, d1, t, p, left - 1, hist, cap)
  }

  /** Blocks until a clear presence bit; any fault rejects the stream. */
  function RansDecode(t: seq<bool>, p: nat, hist: seq<byte>, cap: nat): (r: Decoding)
    requires |hist| <= cap
    ensures r.Decoded? ==> hist <= r.hist && |r.hist| <= cap
    decreases |t| - p
  {
    assert Pow2(1) == 2;
    var present := ReadAt(t, p, 1);
    if present < 0 then Rejected
    else if present == 0 then Decoded(hist, p + 1)
    else
      match ReadRansHeader(t, p + 1)
      case Failed(_) => Rejected
      case Got(h, p1) =>
        match ReadRansBody(h.tab, Head(h.data, 4), t, p1, h.nsyms, hist, cap)
        case Fault => Rejected
        case Done(hist', p2) => RansDecode(t, p2, hist', cap)
  }
}
