/** The compressor's side of the tree description. */
module TreeWriter {
  import opened BitStrings
  import opened Options
  import opened Tally
  import opened BitIO
  import opened Canonical
  import opened Tables
  import opened TreeRepair
  import opened CodeLengths
  import opened TreeCode

  // ----- full codes fill the lookup table -----

  lemma {:induction false} KraftIsSpan(s: seq<nat>)
    ensures Kraft(s) == Span(s, MAX_CODE_BITS, 1, MAX_CODE_BITS)
  {
    if s != [] {
      KraftIsSpan(s[..|s| - 1]);
    }
  }

  lemma FullTotal(s: seq<nat>, max: nat)
    requires FullCode(s, max) && max <= MAX_CODE_BITS
    ensures Total(s) == LOOKUP_SIZE
  {
    TotalIsKraft(s);
    KraftIsSpan(s);
    SpanSplit(s, MAX_CODE_BITS, 1, max, MAX_CODE_BITS);
    SpanEmpty(s, MAX_CODE_BITS, max + 1, MAX_CODE_BITS);
    SpanScale(s, MAX_CODE_BITS, 1, max);
    Pow2Add(max, MAX_CODE_BITS - max);
    Pow2Values();
  }

  /** codes holds the canonical code of every used symbol. */
  ghost predicate CodesOf(codes: seq<nat>, lengths: seq<nat>)
  {
    && |codes| == |lengths| && Total(lengths) <= LOOKUP_SIZE
    && forall i: nat :: Used(lengths, i) ==> codes[i] == NextCode(lengths, lengths[i], i)
  }

  /** Generates the canonical codes of a code that fits the table. */
  method MakeCodes(lengths: seq<nat>) returns (codes: seq<nat>)
    requires Total(lengths) <= LOOKUP_SIZE
    ensures CodesOf(codes, lengths)
  {
    var a := new nat[|lengths|](_ => 0);
    CodeGen(lengths, a);
    codes := a[..];
    forall i: nat | Used(lengths, i) ensures codes[i] == NextCode(lengths, lengths[i], i) {
      CodeFits(lengths, i);
      Pow2Monotone(lengths[i], 16);
      Pow2Values();
    }
  }

  method PutCode(bo: BitWriter, codes: seq<nat>, lengths: seq<nat>, sym: nat)
    requires bo.Valid() && CodesOf(codes, lengths) && Used(lengths, sym)
    modifies bo, bo.buf
    ensures bo.Valid() && bo.Stream() == old(bo.Stream()) + CodeBits(lengths, sym)
  {
    CodeFits(lengths, sym);
    bo.Put(codes[sym], lengths[sym]);
  }

  // ----- the layout -----

  method ScanLo(s: seq<nat>) returns (lo: bool)
    requires |s| == NUM_SYMBOLS
    ensures lo == HasLo(s)
  {
    lo := false;
    var i := 0;
    while i <= 8 && !lo
      invariant i <= 9 && (lo ==> HasLo(s)) && (!lo ==> forall k :: 0 <= k < i ==> s[k] == 0)
    {
      if s[i] > 0 {
        lo := true;
      }
      i := i + 1;
    }
    if !lo && s[11] > 0 {
      lo := true;
    }
    if !lo {
      i := 14;
      while i <= 31
        invariant 14 <= i <= 32 && !lo && forall k :: 14 <= k < i ==> s[k] == 0
      {
        if s[i] > 0 {
          lo := true;
          break;
        }
        i := i + 1;
      }
    }
  }

  method ScanHi(s: seq<nat>) returns (hi: bool)
    requires |s| == NUM_SYMBOLS
    ensures hi == HasHi(s)
  {
    hi := false;
    for i := 128 to 256
      invariant !hi && forall k :: 128 <= k < i ==> s[k] == 0
    {
      if s[i] > 0 {
        hi := true;
        break;
      }
    }
  }

  method SetRange(present: array<bool>, lo: nat, hi: nat)
    requires lo <= hi <= present.Length
    modifies present
    ensures forall i :: 0 <= i < present.Length ==> present[i] == (old(present[i]) || lo <= i < hi)
  {
    for i := lo to hi
      invariant forall k :: 0 <= k < present.Length ==> present[k] == (old(present[k]) || lo <= k < i)
    {
      present[i] := true;
    }
  }

  method ListPresent(t: nat) returns (present: array<bool>)
    requires t <= 3
    ensures fresh(present) && present.Length == NUM_SYMBOLS
    ensures forall i: nat :: i < NUM_SYMBOLS ==> present[i] == Present(t, i)
  {
    present := new bool[NUM_SYMBOLS](_ => false);
    if t == 0 || t == 2 {
      SetRange(present, 9, 11);
      SetRange(present, 12, 14);
      SetRange(present, 32, if t == 0 then 128 else NUM_SYMBOLS);
    } else {
      SetRange(present, 0, if t == 1 then 128 else NUM_SYMBOLS);
    }
    if t == 0 || t == 1 {
      SetRange(present, 256, NUM_SYMBOLS);
    }
  }

  method DeltaCodes(lengths: seq<nat>, prev: seq<nat>, t: nat, present: array<bool>) returns (stream: seq<nat>)
    requires Lengths(lengths) && Lengths(prev) && present.Length == NUM_SYMBOLS
    requires forall i: nat :: i < NUM_SYMBOLS ==> present[i] == Present(t, i)
    ensures stream == Pack(t, lengths, prev, NUM_SYMBOLS)
  {
    stream := [];
    for i := 0 to NUM_SYMBOLS
      invariant stream == Pack(t, lengths, prev, i)
    {
      if present[i] {
        RowInverse(prev[i], lengths[i]);
        stream := stream + [IVVAL[prev[i]][lengths[i]]];
      }
    }
  }

  // ----- run-length coding -----

  lemma {:induction false} RunFrom(s: seq<nat>, i: nat, r: nat)
    requires 1 <= r && i + r <= |s| && (forall k :: i <= k < i + r ==> s[k] == s[i])
    requires i + r < |s| ==> s[i + r] != s[i]
    ensures Run(s[i..]) == r
    decreases r
  {
    var u := s[i..];
    if r > 1 {
      assert u[1..] == s[i + 1..];
      RunFrom(s, i + 1, r - 1);
    }
  }

  /** The number of elements the codes at position i cover. */
  method ChunkAt(stream: seq<nat>, i: nat) returns (chunk: nat)
    requires i < |stream|
    ensures chunk == Chunk(stream[i..])
  {
    var run := 1;
    while i + run < |stream| && stream[i + run] == stream[i]
      invariant 1 <= run && i + run <= |stream| && forall k :: i <= k < i + run ==> stream[k] == stream[i]
    {
      run := run + 1;
    }
    RunFrom(stream, i, run);
    if run > MIN_REPEAT {
      chunk := run;
      if chunk > REPEAT_CODE + MIN_REPEAT {
        chunk := REPEAT_CODE + MIN_REPEAT;
      }
    } else {
      chunk := 1;
    }
  }

  /** Codes already handled, followed by the codes of the rest. */
  lemma RleNext(stream: seq<nat>, i: nat, done: seq<nat>)
    requires i < |stream| && Rle(stream) == done + Rle(stream[i..])
    ensures var c := Chunk(stream[i..]);
            && Rle(stream) == done + ChunkCodes(stream[i..]) + Rle(stream[i + c..])
            && (c == 1 ==> ChunkCodes(stream[i..]) == [stream[i]])
            && (c > 1 ==> ChunkCodes(stream[i..]) == [stream[i], REPEAT_CODE, c - MIN_REPEAT])
  {
    var u := stream[i..];
    RleSplit(u);
    ChunkCodesAre(u);
    hide *;
    TailOfTail(stream, i, Chunk(u));
    Regroup3(done, ChunkCodes(u), Rle(u[Chunk(u)..]));
  }

  lemma TailOfTail(s: seq<nat>, i: nat, c: nat)
    requires i < |s| && i + c <= |s|
    ensures s[i..][0] == s[i] && s[i..][c..] == s[i + c..]
  {
  }

  lemma Regroup3(a: seq<nat>, b: seq<nat>, c: seq<nat>)
    ensures a + (b + c) == a + b + c
  {
  }

  lemma ChunkCodesAre(u: seq<nat>)
    requires u != []
    ensures 1 <= Chunk(u) <= |u|
    ensures ChunkCodes(u) == if Chunk(u) == 1 then [u[0]] else [u[0], REPEAT_CODE, Chunk(u) - MIN_REPEAT]
  {
    hide Run, Chunk;
  }

  lemma RleEnds(stream: seq<nat>, done: seq<nat>)
    ensures Rle(stream) == [] + Rle(stream[0..])
    ensures done + Rle(stream[|stream|..]) == done
  {
    assert stream[0..] == stream;
  }

  /** Every code counted so far has a positive frequency, and no more was counted than elements passed. */
  ghost predicate Counted(freqs: seq<nat>, done: seq<nat>, i: nat)
  {
    && freqs == CodeCounts(done) && Sum(freqs) <= i
    && forall k :: 0 <= k < |done| ==> done[k] < NUM_LEN_CODES
  }

  /** How often each code of a description is used. */
  function CodeCounts(codes: seq<nat>): (freqs: seq<nat>)
    ensures |freqs| == NUM_LEN_CODES
  {
    seq(NUM_LEN_CODES, v requires 0 <= v < NUM_LEN_CODES => CountOf(codes, v))
  }

  lemma CountsAre(freqs: seq<nat>, done: seq<nat>, i: nat)
    requires Counted(freqs, done, i)
    ensures freqs == CodeCounts(done)
  {
  }

  lemma CountedUsed(freqs: seq<nat>, done: seq<nat>, i: nat)
    requires Counted(freqs, done, i)
    ensures Sum(freqs) <= i && forall k :: 0 <= k < |done| ==> done[k] < NUM_LEN_CODES && freqs[done[k]] > 0
  {
    hide Sum;
    forall k | 0 <= k < |done| ensures freqs[done[k]] > 0 {
      CountedOnce(done, k);
    }
  }

  lemma CountOne(freqs: seq<nat>, done: seq<nat>, i: nat, sym: nat)
    requires Counted(freqs, done, i) && sym < NUM_LEN_CODES
    ensures Counted(freqs[sym := freqs[sym] + 1], done + [sym], i + 1)
  {
    hide Sum, CodeCounts;
    SumUpdate(freqs, sym, freqs[sym] + 1);
    CountsMore(done, sym);
  }

  lemma {:induction false} CountsMore(done: seq<nat>, sym: nat)
    requires sym < NUM_LEN_CODES
    ensures CodeCounts(done + [sym]) == CodeCounts(done)[sym := CodeCounts(done)[sym] + 1]
  {
    assert (done + [sym])[..|done|] == done;
  }

  method CountCodes(stream: seq<nat>) returns (freqs: seq<nat>)
    requires forall k :: 0 <= k < |stream| ==> stream[k] <= 13
    ensures Counted(freqs, Rle(stream), |stream|)
  {
    hide Counted, Rle, Chunk, ChunkCodes;
    freqs := seq(NUM_LEN_CODES, _ => 0);
    NothingCounted();
    ghost var done: seq<nat> := [];
    var i := 0;
    RleEnds(stream, done);
    while i < |stream|
      invariant i <= |stream| && Rle(stream) == done + Rle(stream[i..]) && Counted(freqs, done, i)
    {
      CountedShape(freqs, done, i);
      var chunk := ChunkAt(stream, i);
      RleNext(stream, i, done);
      freqs, done := CountSym(freqs, done, i, stream[i]);
      if chunk > 1 {
        freqs, done := CountSym(freqs, done, i + 1, REPEAT_CODE);
        freqs, done := CountSym(freqs, done, i + 2, chunk - MIN_REPEAT);
        CountedLater(freqs, done, i + 3, i + chunk);
      }
      i := i + chunk;
    }
    RleEnds(stream, done);
  }

  lemma NothingCounted()
    ensures Counted(seq(NUM_LEN_CODES, _ => 0), [], 0)
  {
    ZeroSum(NUM_LEN_CODES);
  }

  method CountSym(freqs: seq<nat>, ghost done: seq<nat>, ghost i: nat, sym: nat) returns (freqs': seq<nat>, ghost done': seq<nat>)
    requires Counted(freqs, done, i) && sym < NUM_LEN_CODES
    ensures Counted(freqs', done', i + 1) && done' == done + [sym]
  {
    CountOne(freqs, done, i, sym);
    freqs', done' := freqs[sym := freqs[sym] + 1], done + [sym];
  }

  lemma CountedShape(freqs: seq<nat>, done: seq<nat>, i: nat)
    requires Counted(freqs, done, i)
    ensures |freqs| == NUM_LEN_CODES
  {
  }

  lemma CountedLater(freqs: seq<nat>, done: seq<nat>, i: nat, j: nat)
    requires Counted(freqs, done, i) && i <= j
    ensures Counted(freqs, done, j)
  {
  }

  /** Writes the run-length codes of a stream. */
  method PutStream(bo: BitWriter, stream: seq<nat>, codes: seq<nat>, tl: seq<nat>)
    requires bo.Valid() && CodesOf(codes, tl) && DescriptionCode(tl, Rle(stream))
    modifies bo, bo.buf
    ensures bo.Valid() && bo.Stream() == old(bo.Stream()) + CodesBits(Rle(stream), tl)
  {
    hide Rle, Chunk, ChunkCodes, CodesBits, CodeBits, CodesOf, DescriptionCode, BitWriter.Stream, Used, BitIO.Holds,
         BitWriter.BufferValid, WordBits, BitsOf, Pow2;
    var i := 0;
    ghost var done, start := [], bo.Stream();
    RleEnds(stream, done);
    NoCodes(tl, start);
    while i < |stream|
      invariant i <= |stream| && Rle(stream) == done + Rle(stream[i..])
      invariant forall k :: 0 <= k < |done| ==> Used(tl, done[k])
      invariant bo.Valid() && bo.Stream() == start + CodesBits(done, tl)
    {
      var chunk := ChunkAt(stream, i);
      RleNext(stream, i, done);
      ChunkUsed(tl, stream, i, done);
      done := PutNext(bo, codes, tl, stream[i], done, start);
      if chunk > 1 {
        done := PutNext(bo, codes, tl, REPEAT_CODE, done, start);
        done := PutNext(bo, codes, tl, chunk - MIN_REPEAT, done, start);
      }
      i := i + chunk;
    }
    RleEnds(stream, done);
  }

  lemma NoCodes(tl: seq<nat>, start: seq<bool>)
    ensures start == start + CodesBits([], tl)
  {
  }

  lemma MiddleUsed(tl: seq<nat>, all: seq<nat>, a: seq<nat>, b: seq<nat>, c: seq<nat>)
    requires all == a + b + c && DescriptionCode(tl, all)
    ensures forall k :: 0 <= k < |b| ==> Used(tl, b[k])
  {
    forall k | 0 <= k < |b| ensures Used(tl, b[k]) {
      assert all[|a| + k] == b[k];
    }
  }

  /** The codes of the next chunk are among those the description code covers. */
  lemma ChunkUsed(tl: seq<nat>, stream: seq<nat>, i: nat, done: seq<nat>)
    requires i < |stream| && DescriptionCode(tl, Rle(stream)) && Rle(stream) == done + Rle(stream[i..])
    ensures Used(tl, stream[i])
    ensures Chunk(stream[i..]) > 1 ==> Used(tl, REPEAT_CODE) && Used(tl, Chunk(stream[i..]) - MIN_REPEAT)
  {
    hide *;
    RleNext(stream, i, done);
    var c := Chunk(stream[i..]);
    var codes := ChunkCodes(stream[i..]);
    MiddleUsed(tl, Rle(stream), done, codes, Rle(stream[i + c..]));
    assert Used(tl, codes[0]);
    if c > 1 {
      assert Used(tl, codes[1]) && Used(tl, codes[2]);
    }
  }

  method PutNext(bo: BitWriter, codes: seq<nat>, tl: seq<nat>, sym: nat, ghost done: seq<nat>, ghost start: seq<bool>)
    returns (ghost done': seq<nat>)
    requires bo.Valid() && CodesOf(codes, tl) && Used(tl, sym)
    requires (forall k :: 0 <= k < |done| ==> Used(tl, done[k])) && bo.Stream() == start + CodesBits(done, tl)
    modifies bo, bo.buf
    ensures done' == done + [sym] && (forall k :: 0 <= k < |done'| ==> Used(tl, done'[k]))
    ensures bo.Valid() && bo.Stream() == start + CodesBits(done', tl)
  {
    hide CodesBits, CodeBits, CodesOf, BitWriter.Stream, Used, BitIO.Holds, BitWriter.BufferValid;
    PutCode(bo, codes, tl, sym);
    OneCode(done, sym, tl);
    done' := done + [sym];
  }

  lemma OneCode(done: seq<nat>, sym: nat, tl: seq<nat>)
    requires (forall k :: 0 <= k < |done| ==> Used(tl, done[k])) && Used(tl, sym)
    ensures forall k :: 0 <= k < |done + [sym]| ==> Used(tl, (done + [sym])[k])
    ensures CodesBits(done + [sym], tl) == CodesBits(done, tl) + CodeBits(tl, sym)
  {
    hide Used, CodeBits;
    CodesBitsConcat(done, [sym], tl);
    assert [sym][1..] == [];
    assert CodesBits([sym], tl) == CodeBits(tl, sym);
  }

  // ----- the description's own code -----

  lemma FifteenSymbolsSafe(n: nat)
    requires n <= NUM_LEN_CODES
    ensures n * (n - 1 - 7) < Pow2(7)
  {
    assert Pow2(7) == 128;
    if n >= 8 {
      MulLe(n, NUM_LEN_CODES, n - 8);
    }
  }

  /** The code of the codes: seven bits are always enough for fifteen symbols. */
  method DescriptionLengths(stream: seq<nat>) returns (tl: seq<nat>)
    requires |stream| <= NUM_SYMBOLS && forall k :: 0 <= k < |stream| ==> stream[k] <= 13
    ensures DescriptionCode(tl, Rle(stream)) && Some(tl) == TreeLengths(CodeCounts(Rle(stream)), 7)
  {
    hide Counted, TreeLengths, CodeCounts;
    var freqs := CountCodes(stream);
    CountedUsed(freqs, Rle(stream), |stream|);
    CountsAre(freqs, Rle(stream), |stream|);
    assert Pow2(7) == 128;
    var r := TreeGen(freqs, 7);
    UsedAtMost(freqs);
    FifteenSymbolsSafe(UsedCount(freqs));
    tl := r.value;
    FullTotal(tl, 7);
  }

  method PutLengths(bo: BitWriter, tl: seq<nat>)
    requires bo.Valid() && forall k :: 0 <= k < |tl| ==> tl[k] <= 7
    modifies bo, bo.buf
    ensures bo.Valid() && bo.Stream() == old(bo.Stream()) + LengthsBits(tl, |tl|)
  {
    hide BitsOf, Pow2, BitWriter.Stream, BitIO.Holds, BitWriter.BufferValid;
    ghost var start := bo.Stream();
    PowersOfTwo();
    for i := 0 to |tl|
      invariant bo.Valid() && bo.Stream() == start + LengthsBits(tl, i)
    {
      bo.Put(tl[i], 3);
      assert bo.Stream() == start + (LengthsBits(tl, i) + BitsOf(tl[i], 3));
    }
  }

  /** The code in which lengths are described: none for the default ones, otherwise that of the counts of its codes. */
  ghost function DescriptionOf(lengths: seq<nat>, prev: seq<nat>): Option<seq<nat>>
    requires Lengths(lengths) && Lengths(prev)
  {
    if lengths == DefaultLengths() then Some([]) else TreeLengths(CodeCounts(Rle(DeltaStream(lengths, prev))), 7)
  }

  /** Describes a block's lengths against the previous block's, which they then replace. */
  method TreeEnc(bo: BitWriter, lengths: seq<nat>, symprev: array<nat>) returns (ghost tl: seq<nat>)
    requires bo.Valid() && Lengths(lengths) && symprev.Length == NUM_SYMBOLS && Lengths(symprev[..])
    modifies bo, bo.buf, symprev
    ensures bo.Valid() && symprev[..] == lengths
    ensures Describing(tl, lengths, old(symprev[..])) && Some(tl) == DescriptionOf(lengths, old(symprev[..]))
    ensures bo.Stream() == old(bo.Stream()) + TreeBits(lengths, old(symprev[..]), tl)
  {
    hide Rle, Pack, LengthsBits, CodesBits, BitsOf, Pow2, DefaultLengths, Layout, HasLo, HasHi, BitWriter.Stream, BitIO.Holds,
         BitWriter.BufferValid, DeltaStream, TreeLengths, CodeCounts;
    PowersOfTwo();
    ghost var prev, start := symprev[..], bo.Stream();
    var def := new nat[NUM_SYMBOLS];
    FillDefault(def);
    if lengths == def[..] {
      bo.Put(0, 1);
      tl := [];
      forall i | 0 <= i < NUM_SYMBOLS {
        symprev[i] := lengths[i];
      }
      return;
    }
    bo.Put(1, 1);
    tl := PutNewTree(bo, lengths, symprev[..]);
    assert bo.Stream() == start + (BitsOf(1, 1) + (BitsOf(Layout(lengths), 2)
      + (LengthsBits(tl, NUM_LEN_CODES) + CodesBits(Rle(DeltaStream(lengths, prev)), tl))));
    forall i | 0 <= i < NUM_SYMBOLS {
      symprev[i] := lengths[i];
    }
  }

  method PutNewTree(bo: BitWriter, lengths: seq<nat>, prev: seq<nat>) returns (tl: seq<nat>)
    requires bo.Valid() && Lengths(lengths) && Lengths(prev)
    modifies bo, bo.buf
    ensures bo.Valid() && DescriptionCode(tl, Rle(DeltaStream(lengths, prev)))
    ensures Some(tl) == TreeLengths(CodeCounts(Rle(DeltaStream(lengths, prev))), 7)
    ensures bo.Stream() == old(bo.Stream()) + BitsOf(Layout(lengths), 2) + LengthsBits(tl, NUM_LEN_CODES)
                           + CodesBits(Rle(DeltaStream(lengths, prev)), tl)
  {
    hide Rle, Pack, LengthsBits, CodesBits, BitsOf, Pow2, HasLo, HasHi, TreeLengths, CodeCounts;
    PowersOfTwo();
    var lo := ScanLo(lengths);
    var hi := ScanHi(lengths);
    var t := (if hi then 2 else 0) + if lo then 1 else 0;
    bo.Put(t, 2);
    var present := ListPresent(t);
    var stream := DeltaCodes(lengths, prev, t, present);
    tl := DescriptionLengths(stream);
    var tcodes := MakeCodes(tl);
    PutLengths(bo, tl);
    PutStream(bo, stream, tcodes, tl);
  }
}
