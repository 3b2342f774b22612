/** Distances and lengths as symbols with extra bits, and the tokens of the LZ77 layer. */
module LzCodes {
  import opened BitStrings
  import opened Tables

  const MAX_DIST := 64000
  const EOB_MARK := 64001
  const MIN_MATCH := 3
  const MAX_COPY := 35482

  /** (base, extra bits) of the distance symbols, on the compressor's side. */
  const DIST_ENC: seq<(nat, nat)> :=
    [(1,0), (2,0), (3,0), (4,0), (5,0), (6,0), (7,0), (8,0), (9,0), (10,0), (11,0), (12,0), (13,0), (14,0), (15,0)] +
    [(16,4), (32,4), (48,4), (64,4), (80,4), (96,4), (112,4), (128,4), (144,4), (160,4), (176,4), (192,4), (208,4), (224,4), (240,4)] +
    [(256,8), (512,8), (768,8), (1024,8), (1280,8), (1536,8), (1792,8), (2048,8), (2304,8), (2560,8), (2816,8), (3072,8), (3328,8), (3584,8), (3840,8)] +
    [(4096,12), (8192,12), (12288,12), (16384,12), (20480,12), (24576,12), (28672,12), (32768,12), (36864,12), (40960,12), (45056,12), (49152,12), (53248,12), (57344,12), (61440,12)]

  /** (base, extra bits) of the length symbols, on the compressor's side. */
  const LEN_ENC: seq<(nat, nat)> := [
    (3,0), (4,0), (5,0), (6,0), (7,0), (8,0), (9,0), (10,0),
    (11,1), (13,1), (15,1), (17,1), (19,1), (21,1), (23,1), (25,1),
    (27,3), (35,3), (43,3), (51,3), (59,3), (67,3), (75,3), (83,3),
    (91,6), (155,9), (667,11), (2715,15)
  ]

  /** (base, extra bits) of the distance symbols, on the decompressor's side. */
  const D_CODES: seq<(nat, nat)> :=
    [(1,0), (2,0), (3,0), (4,0), (5,0), (6,0), (7,0), (8,0), (9,0), (10,0), (11,0), (12,0), (13,0), (14,0), (15,0)] +
    [(16,4), (32,4), (48,4), (64,4), (80,4), (96,4), (112,4), (128,4), (144,4), (160,4), (176,4), (192,4), (208,4), (224,4), (240,4)] +
    [(256,8), (512,8), (768,8), (1024,8), (1280,8), (1536,8), (1792,8), (2048,8), (2304,8), (2560,8), (2816,8), (3072,8), (3328,8), (3584,8), (3840,8)] +
    [(4096,12), (8192,12), (12288,12), (16384,12), (20480,12), (24576,12), (28672,12), (32768,12), (36864,12), (40960,12), (45056,12), (49152,12), (53248,12), (57344,12), (61440,12)]

  /** (base, extra bits) of the length symbols, on the decompressor's side. */
  const L_CODES: seq<(nat, nat)> := [
    (3,0), (4,0), (5,0), (6,0), (7,0), (8,0), (9,0), (10,0),
    (11,1), (13,1), (15,1), (17,1), (19,1), (21,1), (23,1), (25,1),
    (27,3), (35,3), (43,3), (51,3), (59,3), (67,3), (75,3), (83,3),
    (91,6), (155,9), (667,11), (2715,15)
  ]

  lemma DistEnc(i: nat)
    requires i < NUM_DIST_SYM
    ensures |DIST_ENC| == NUM_DIST_SYM
    ensures i < 15 ==> DIST_ENC[i] == (i + 1, 0)
    ensures 15 <= i < 30 ==> DIST_ENC[i] == ((i - 14) * 16, 4)
    ensures 30 <= i < 45 ==> DIST_ENC[i] == ((i - 29) * 256, 8)
    ensures 45 <= i ==> DIST_ENC[i] == ((i - 44) * 4096, 12)
  {
  }

  lemma DCodes(i: nat)
    requires i < NUM_DIST_SYM
    ensures |D_CODES| == NUM_DIST_SYM && D_CODES[i] == DIST_ENC[i]
  {
    DistEnc(i);
  }

  lemma LenEnc(i: nat)
    requires i < NUM_LEN_SYM
    ensures |LEN_ENC| == |L_CODES| == NUM_LEN_SYM && L_CODES[i] == LEN_ENC[i]
    ensures LEN_ENC[i] == if i < 8 then (i + 3, 0) else if i < 16 then (2 * i - 5, 1)
                          else if i < 24 then (8 * i - 101, 3)
                          else if i == 24 then (91, 6) else if i == 25 then (155, 9)
                          else if i == 26 then (667, 11) else (2715, 15)
  {
  }

  function DistBase(i: nat): (b: nat)
    requires i < NUM_DIST_SYM
    ensures 1 <= b <= 61440
  {
    DistEnc(i);
    DIST_ENC[i].0
  }

  function DistBits(i: nat): (b: nat)
    requires i < NUM_DIST_SYM
    ensures b <= 12
  {
    DistEnc(i);
    DIST_ENC[i].1
  }

  function LenBase(i: nat): (b: nat)
    requires i < NUM_LEN_SYM
    ensures 3 <= b <= 2715
  {
    LenEnc(i);
    LEN_ENC[i].0
  }

  function LenBits(i: nat): (b: nat)
    requires i < NUM_LEN_SYM
    ensures b <= 15
  {
    LenEnc(i);
    LEN_ENC[i].1
  }

  /** The symbol whose range holds a distance. */
  function DistSym(dist: nat): (i: nat)
    requires 1 <= dist <= 65535
    ensures i < NUM_DIST_SYM
  {
    if dist < 16 then dist - 1
    else if dist < 256 then dist / 16 + 14
    else if dist < 4096 then dist / 256 + 29
    else dist / 4096 + 44
  }

  function LenSym(len: nat): (i: nat)
    requires 3 <= len <= MAX_COPY
    ensures i < NUM_LEN_SYM
  {
    if len < 11 then len - 3
    else if len < 27 then (len - 11) / 2 + 8
    else if len < 91 then (len - 27) / 8 + 16
    else if len < 155 then 24
    else if len < 667 then 25
    else if len < 2715 then 26
    else 27
  }

  lemma ExtraPowers()
    ensures Pow2(0) == 1 && Pow2(1) == 2 && Pow2(3) == 8 && Pow2(4) == 16 && Pow2(6) == 64 && Pow2(8) == 256
    ensures Pow2(9) == 512 && Pow2(11) == 2048 && Pow2(12) == 4096 && Pow2(15) == 32768
  {
    assert Pow2(4) == 16;
    assert Pow2(8) == 256;
    assert Pow2(12) == 4096;
  }

  /** Symbol and extra bits determine the distance: base <= dist < base + 2^bits. */
  lemma DistSymRange(dist: nat)
    requires 1 <= dist <= 65535
    ensures DistBase(DistSym(dist)) <= dist < DistBase(DistSym(dist)) + Pow2(DistBits(DistSym(dist)))
  {
    ExtraPowers();
    DistEnc(DistSym(dist));
  }

  lemma LenSymRange(len: nat)
    requires 3 <= len <= MAX_COPY
    ensures LenBase(LenSym(len)) <= len < LenBase(LenSym(len)) + Pow2(LenBits(LenSym(len)))
  {
    ExtraPowers();
    LenEnc(LenSym(len));
  }

  lemma DistBasesAscend(i: nat, j: nat)
    requires i < j < NUM_DIST_SYM
    ensures DistBase(i) < DistBase(j) && DistBase(i) + Pow2(DistBits(i)) <= DistBase(j)
  {
    ExtraPowers();
    DistEnc(i);
    DistEnc(j);
  }

  lemma LenBasesAscend(i: nat, j: nat)
    requires i < j < NUM_LEN_SYM
    ensures LenBase(i) < LenBase(j) && LenBase(i) + Pow2(LenBits(i)) <= LenBase(j)
  {
    ExtraPowers();
    LenEnc(i);
    LenEnc(j);
  }

  /** Searches the distance table from the top. */
  method FindDistSym(dist: nat) returns (sym: nat)
    requires 1 <= dist <= 65535
    ensures sym == DistSym(dist)
  {
    DistSymRange(dist);
    sym := NUM_DIST_SYM;
    while sym > 0
      invariant DistSym(dist) < sym <= NUM_DIST_SYM
    {
      sym := sym - 1;
      if dist >= DistBase(sym) {
        if DistSym(dist) < sym {
          DistBasesAscend(DistSym(dist), sym);
        }
        return;
      }
    }
  }

  /** Searches the length table from the top. */
  method FindLenSym(len: nat) returns (sym: nat)
    requires 3 <= len <= MAX_COPY
    ensures sym == LenSym(len)
  {
    LenSymRange(len);
    sym := NUM_LEN_SYM;
    while sym > 0
      invariant LenSym(len) < sym <= NUM_LEN_SYM
    {
      sym := sym - 1;
      if len >= LenBase(sym) {
        if LenSym(len) < sym {
          LenBasesAscend(LenSym(len), sym);
        }
        return;
      }
    }
  }

  // ----- tokens -----

  datatype Token = Literal(b: byte) | Match(dist: nat, len: nat)

  predicate TokenOk(tok: Token)
  {
    tok.Match? ==> 1 <= tok.dist <= MAX_DIST && MIN_MATCH <= tok.len <= MAX_COPY
  }

  /** The history after copying len bytes from dist back, one at a time. */
  function Copy(hist: seq<byte>, dist: nat, len: nat): (h: seq<byte>)
    requires 1 <= dist <= |hist|
    ensures |h| == |hist| + len && hist <= h
    decreases len
  {
    if len == 0 then hist else Copy(hist + [hist[|hist| - dist]], dist, len - 1)
  }

  lemma CopyStep(h: seq<byte>, dist: nat, n: nat)
    requires 1 <= dist <= |h| && n > 0
    ensures Copy(h, dist, n) == Copy(h + [h[|h| - dist]], dist, n - 1)
  {
  }

  lemma CopyNothing(h: seq<byte>, dist: nat)
    requires 1 <= dist <= |h|
    ensures Copy(h, dist, 0) == h
  {
  }

  /** A match may not reach further back than the history or the 64 KiB window. */
  predicate Reachable(hist: seq<byte>, dist: nat)
  {
    1 <= dist <= |hist| && dist <= 65536
  }

  predicate Applies(tok: Token, hist: seq<byte>)
  {
    tok.Match? ==> Reachable(hist, tok.dist)
  }

  function Apply(tok: Token, hist: seq<byte>): (h: seq<byte>)
    requires Applies(tok, hist)
    ensures hist <= h
  {
    match tok
    case Literal(b) => hist + [b]
    case Match(d, l) => Copy(hist, d, l)
  }

  predicate AppliesAll(toks: seq<Token>, hist: seq<byte>)
    decreases |toks|
  {
    toks != [] ==> Applies(toks[0], hist) && AppliesAll(toks[1..], Apply(toks[0], hist))
  }

  function ApplyAll(toks: seq<Token>, hist: seq<byte>): (h: seq<byte>)
    requires AppliesAll(toks, hist)
    ensures hist <= h
    decreases |toks|
  {
    if toks == [] then hist else ApplyAll(toks[1..], Apply(toks[0], hist))
  }

  lemma {:induction false} ApplyConcat(a: seq<Token>, b: seq<Token>, hist: seq<byte>)
    requires AppliesAll(a, hist) && AppliesAll(b, ApplyAll(a, hist))
    ensures AppliesAll(a + b, hist) && ApplyAll(a + b, hist) == ApplyAll(b, ApplyAll(a, hist))
  {
    if a == [] {
      assert a + b == b;
    } else {
      assert (a + b)[1..] == a[1..] + b;
      ApplyConcat(a[1..], b, Apply(a[0], hist));
    }
  }

  lemma {:induction false} CopyPrefix(pre: seq<byte>, hist: seq<byte>, dist: nat, len: nat)
    requires 1 <= dist <= |hist|
    ensures Copy(pre + hist, dist, len) == pre + Copy(hist, dist, len)
    decreases len
  {
    hide Copy;
    if len == 0 {
      CopyNothing(pre + hist, dist);
      CopyNothing(hist, dist);
    } else {
      var b := hist[|hist| - dist];
      assert pre + hist + [b] == pre + (hist + [b]);
      assert (pre + hist)[|pre + hist| - dist] == b;
      CopyStep(pre + hist, dist, len);
      CopyStep(hist, dist, len);
      CopyPrefix(pre, hist + [b], dist, len - 1);
    }
  }

  /** Older history in front of the window changes nothing. */
  lemma {:induction false} ApplyPrefix(pre: seq<byte>, toks: seq<Token>, hist: seq<byte>)
    requires AppliesAll(toks, hist)
    ensures AppliesAll(toks, pre + hist) && ApplyAll(toks, pre + hist) == pre + ApplyAll(toks, hist)
    decreases |toks|
  {
    if toks != [] {
      match toks[0]
      case Literal(b) =>
        assert pre + hist + [b] == pre + (hist + [b]);
        ApplyPrefix(pre, toks[1..], hist + [b]);
      case Match(d, l) =>
        CopyPrefix(pre, hist, d, l);
        ApplyPrefix(pre, toks[1..], Copy(hist, d, l));
    }
  }

  /** Copying reproduces text that already matches its own past. */
  lemma {:induction false} CopyReproduces(text: seq<byte>, n: nat, dist: nat, len: nat)
    requires 1 <= dist <= n && n + len <= |text|
    requires forall k :: n <= k < n + len ==> text[k] == text[k - dist]
    ensures Copy(text[..n], dist, len) == text[..n + len]
    decreases len
  {
    if len > 0 {
      assert text[..n][n - dist] == text[n];
      assert text[..n] + [text[n]] == text[..n + 1];
      CopyReproduces(text, n + 1, dist, len - 1);
    }
  }

  // ----- positions -----

  /** The positions from a to b. */
  function Positions(a: nat, b: int): (s: seq<nat>)
    ensures a < b ==> |s| == b - a
  {
    if a < b then seq(b - a, i requires 0 <= i => a + i) else []
  }

  lemma PositionsMore(a: nat, b: nat)
    requires a <= b
    ensures Positions(a, b + 1) == Positions(a, b) + [b]
  {
  }

  lemma PositionsFirst(a: nat, b: int)
    requires a < b
    ensures Positions(a, b) == [a] + Positions(a + 1, b)
  {
  }

  lemma NoPositions(a: nat)
    ensures Positions(a, a) == []
  {
  }
}
