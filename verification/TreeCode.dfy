/** The delta- and run-length-coded description of a block's code lengths, both ways. */
module TreeCode {
  import opened BitStrings
  import opened ErrorCodes
  import opened Options
  import opened Canonical
  import opened Tables

  const NUM_LEN_CODES := 15
  const REPEAT_CODE := 14
  const MIN_REPEAT := 6

  /** A full set of code lengths. */
  ghost predicate Lengths(s: seq<nat>)
  {
    |s| == NUM_SYMBOLS && forall i :: 0 <= i < NUM_SYMBOLS ==> s[i] <= MAX_CODE_BITS
  }

  // ----- the layout and the delta stream -----

  function HasLo(s: seq<nat>): bool
    requires |s| == NUM_SYMBOLS
  {
    exists i :: 0 <= i < 32 && i !in {9, 10, 12, 13} && s[i] > 0
  }

  function HasHi(s: seq<nat>): bool
    requires |s| == NUM_SYMBOLS
  {
    exists i :: 128 <= i < 256 && s[i] > 0
  }

  /** The smallest of the four layouts that lists every coded symbol. */
  function Layout(s: seq<nat>): (t: nat)
    requires |s| == NUM_SYMBOLS
    ensures t <= 3
    ensures forall i: nat :: i < NUM_SYMBOLS && s[i] > 0 ==> Present(t, i)
  {
    (if HasHi(s) then 2 else 0) + if HasLo(s) then 1 else 0
  }

  /** No layout that lists every coded symbol lists fewer. */
  lemma LayoutLeast(s: seq<nat>, t: nat)
    requires |s| == NUM_SYMBOLS && t <= 3 && forall i: nat :: i < NUM_SYMBOLS && s[i] > 0 ==> Present(t, i)
    ensures PresentCount(Layout(s), NUM_SYMBOLS) <= PresentCount(t, NUM_SYMBOLS)
  {
    PresentTotal(t);
    PresentTotal(Layout(s));
    hide PresentCount;
  }

  /** Delta codes of the listed symbols below n. */
  function Pack(t: nat, s: seq<nat>, prev: seq<nat>, n: nat): (r: seq<nat>)
    requires Lengths(s) && Lengths(prev) && n <= NUM_SYMBOLS
    ensures |r| == PresentCount(t, n) && forall k :: 0 <= k < |r| ==> r[k] <= 13
  {
    if n == 0 then []
    else Pack(t, s, prev, n - 1) + if Present(t, n - 1) then [Delta(prev[n - 1], s[n - 1])] else []
  }

  /** The lengths of the symbols below n; symbols not listed get no code. */
  function Unpack(t: nat, stream: seq<nat>, prev: seq<nat>, n: nat): (r: seq<nat>)
    requires Lengths(prev) && n <= NUM_SYMBOLS && PresentCount(t, n) <= |stream|
    requires forall k :: 0 <= k < |stream| ==> stream[k] <= 13
    ensures |r| == n && forall k :: 0 <= k < n ==> r[k] <= 13
  {
    if n == 0 then []
    else
      Unpack(t, stream, prev, n - 1)
      + [if Present(t, n - 1) then Decoded(prev[n - 1], stream[PresentCount(t, n - 1)]) else 0]
  }

  lemma {:induction false} UnpackPack(t: nat, s: seq<nat>, prev: seq<nat>, stream: seq<nat>, n: nat)
    requires Lengths(s) && Lengths(prev) && n <= NUM_SYMBOLS
    requires forall i: nat :: i < n && s[i] > 0 ==> Present(t, i)
    requires Pack(t, s, prev, n) <= stream && forall k :: 0 <= k < |stream| ==> stream[k] <= 13
    ensures Unpack(t, stream, prev, n) == s[..n]
  {
    hide Present, Delta, Decoded;
    if n > 0 {
      var p := Pack(t, s, prev, n - 1);
      assert p <= Pack(t, s, prev, n);
      UnpackPack(t, s, prev, stream, n - 1);
      if Present(t, n - 1) {
        assert Pack(t, s, prev, n)[|p|] == Delta(prev[n - 1], s[n - 1]);
      }
    }
  }

  // ----- run-length coding -----

  /** How many leading elements equal the first. */
  function Run(s: seq<nat>): (r: nat)
    requires s != []
    ensures 1 <= r <= |s| && forall k :: 0 <= k < r ==> s[k] == s[0]
    ensures r < |s| ==> s[r] != s[0]
  {
    if |s| >= 2 && s[1] == s[0] then 1 + Run(s[1..]) else 1
  }

  /** How many elements the next codes cover: a long run, up to 20 at once, or one element. */
  function Chunk(s: seq<nat>): (c: nat)
    requires s != []
    ensures 1 <= c <= |s| && c <= 20 && (c == 1 || c > MIN_REPEAT)
    ensures forall k :: 0 <= k < c ==> s[k] == s[0]
  {
    var run := Run(s);
    if run > MIN_REPEAT then (if run > REPEAT_CODE + MIN_REPEAT then REPEAT_CODE + MIN_REPEAT else run) else 1
  }

  /** A chunk covers a run as far as it goes or 20 of it; runs of up to six are not worth it. */
  lemma ChunkIsLongest(s: seq<nat>)
    requires s != []
    ensures var c := Chunk(s);
            && (c > 1 ==> c == 20 || c == |s| || s[c] != s[0])
            && (c == 1 ==> |s| < 7 || exists k :: 0 <= k < 7 && s[k] != s[0])
  {
    var r := Run(s);
    assert r < |s| ==> s[r] != s[0];
  }

  function ChunkCodes(s: seq<nat>): seq<nat>
    requires s != []
  {
    if Chunk(s) == 1 then [s[0]] else [s[0], REPEAT_CODE, Chunk(s) - MIN_REPEAT]
  }

  function Rle(s: seq<nat>): (r: seq<nat>)
    ensures (forall k :: 0 <= k < |s| ==> s[k] <= 13) ==> forall k :: 0 <= k < |r| ==> r[k] <= 14
  {
    if s == [] then [] else ChunkCodes(s) + Rle(s[Chunk(s)..])
  }

  // ----- decoding the stream of codes -----

  /** A usable lookup table for the tree description's own code. */
  ghost predicate StreamTable(table: seq<Entry>)
  {
    GoodTable(table) && forall w :: 0 <= w < LOOKUP_SIZE ==> table[w].code.value <= REPEAT_CODE
  }

  function ReadStream(table: seq<Entry>, t: seq<bool>, p: nat, out: seq<nat>, val: nat, size: nat): (r: Parse<seq<nat>>)
    requires StreamTable(table) && |out| <= size && val <= 13 && forall k :: 0 <= k < |out| ==> out[k] <= 13
    ensures r.Failed? ==> r.code < 0
    ensures r.Got? ==> |r.value| == size && r.pos >= p && forall k :: 0 <= k < size ==> r.value[k] <= 13
    decreases |t| - p
  {
    if |out| == size then Got(out, p)
    else
      var w := Lookup(table, t, p);
      if w < 0 then Failed(w)
      else
        var c, p1 := table[w].code.value, p + table[w].len;
        if c != REPEAT_CODE then ReadStream(table, t, p1, out + [c], c, size)
        else
          var w2 := Lookup(table, t, p1);
          if w2 < 0 then Failed(w2)
          else
            var n, p2 := table[w2].code.value + MIN_REPEAT - 1, p1 + table[w2].len;
            if n > size - |out| then Failed(DAMAGED)
            else ReadStream(table, t, p2, out + Rep(val, n), val, size)
  }

  // ----- writing codes -----

  /** The bits of a sequence of symbols. */
  function CodesBits(syms: seq<nat>, lengths: seq<nat>): seq<bool>
    requires forall k :: 0 <= k < |syms| ==> Used(lengths, syms[k])
  {
    if syms == [] then [] else CodeBits(lengths, syms[0]) + CodesBits(syms[1..], lengths)
  }

  lemma {:induction false} CodesBitsConcat(a: seq<nat>, b: seq<nat>, lengths: seq<nat>)
    requires forall k :: 0 <= k < |a| ==> Used(lengths, a[k])
    requires forall k :: 0 <= k < |b| ==> Used(lengths, b[k])
    ensures CodesBits(a + b, lengths) == CodesBits(a, lengths) + CodesBits(b, lengths)
  {
    if a == [] {
      assert a + b == b;
    } else {
      assert (a + b)[1..] == a[1..] + b;
      CodesBitsConcat(a[1..], b, lengths);
    }
  }

  function Values(n: nat): seq<Code>
  {
    seq(n, i requires 0 <= i => Code(i, 0, false))
  }

  /** A code for the tree description whose codes fit three bits, full, and covering the symbols. */
  ghost predicate DescriptionCode(tl: seq<nat>, syms: seq<nat>)
  {
    && |tl| == NUM_LEN_CODES && (forall i :: 0 <= i < NUM_LEN_CODES ==> tl[i] <= 7)
    && Total(tl) <= LOOKUP_SIZE
    && forall k :: 0 <= k < |syms| ==> Used(tl, syms[k])
  }

  lemma DescriptionTable(tl: seq<nat>)
    requires |tl| == NUM_LEN_CODES && Total(tl) <= LOOKUP_SIZE
    ensures StreamTable(Table(tl, Values(NUM_LEN_CODES)))
  {
    TableEntries(tl, Values(NUM_LEN_CODES));
  }

  // ----- the decoder reads back what the encoder wrote -----

  /** The lookup table of a description code. */
  ghost predicate TableOf(table: seq<Entry>, tl: seq<nat>)
  {
    |tl| == NUM_LEN_CODES && Total(tl) <= LOOKUP_SIZE && table == Table(tl, Values(NUM_LEN_CODES)) && StreamTable(table)
  }

  /** t holds the given codes at p, and can be looked up after them. */
  ghost predicate Holds(tl: seq<nat>, syms: seq<nat>, t: seq<bool>, p: nat)
  {
    && DescriptionCode(tl, syms)
    && HasBits(t, p, CodesBits(syms, tl)) && p + |CodesBits(syms, tl)| + MAX_CODE_BITS <= |t|
  }

  /** The first code of a written sequence is looked up, and the rest follows it. */
  lemma ReadFirst(table: seq<Entry>, tl: seq<nat>, sym: nat, rest: seq<nat>, t: seq<bool>, p: nat)
    requires TableOf(table, tl) && Holds(tl, [sym] + rest, t, p)
    ensures 0 <= Lookup(table, t, p) && sym < |tl|
    ensures table[Lookup(table, t, p)].code.value == sym && table[Lookup(table, t, p)].len == tl[sym]
    ensures Holds(tl, rest, t, p + tl[sym])
    ensures |CodesBits([sym] + rest, tl)| == tl[sym] + |CodesBits(rest, tl)|
  {
    var syms := [sym] + rest;
    assert Used(tl, syms[0]) && syms[1..] == rest;
    HasBitsSplit(t, p, CodeBits(tl, sym), CodesBits(rest, tl));
    LookupCode(tl, Values(NUM_LEN_CODES), sym, t, p);
    assert forall k :: 0 <= k < |rest| ==> rest[k] == syms[k + 1];
  }

  lemma StepLiteral(table: seq<Entry>, t: seq<bool>, p: nat, out: seq<nat>, val: nat, size: nat, c: nat, l: nat)
    requires StreamTable(table) && |out| < size && val <= 13 && forall k :: 0 <= k < |out| ==> out[k] <= 13
    requires 0 <= Lookup(table, t, p) && table[Lookup(table, t, p)].code.value == c <= 13
    requires table[Lookup(table, t, p)].len == l
    ensures ReadStream(table, t, p, out, val, size) == ReadStream(table, t, p + l, out + [c], c, size)
  {
  }

  lemma StepRepeat(table: seq<Entry>, t: seq<bool>, p: nat, out: seq<nat>, val: nat, size: nat, l: nat, c: nat, l2: nat)
    requires StreamTable(table) && val <= 13 && forall k :: 0 <= k < |out| ==> out[k] <= 13
    requires 0 <= Lookup(table, t, p) && table[Lookup(table, t, p)].code.value == REPEAT_CODE
    requires table[Lookup(table, t, p)].len == l
    requires 0 <= Lookup(table, t, p + l) && table[Lookup(table, t, p + l)].code.value == c
    requires table[Lookup(table, t, p + l)].len == l2 && |out| + c + MIN_REPEAT - 1 <= size
    ensures ReadStream(table, t, p, out, val, size)
            == ReadStream(table, t, p + l + l2, out + Rep(val, c + MIN_REPEAT - 1), val, size)
  {
  }

  lemma RleSplit(s: seq<nat>)
    requires s != []
    ensures Rle(s) == ChunkCodes(s) + Rle(s[Chunk(s)..])
  {
    hide Chunk, ChunkCodes;
  }

  lemma RleFirst(s: seq<nat>)
    requires s != []
    ensures Chunk(s) == 1 ==> Rle(s) == [s[0]] + Rle(s[1..])
    ensures Chunk(s) > 1 ==> Rle(s) == [s[0]] + ([REPEAT_CODE] + ([Chunk(s) - MIN_REPEAT] + Rle(s[Chunk(s)..])))
  {
    hide Chunk, Rle;
    RleSplit(s);
    if Chunk(s) > 1 {
      OneByOne(s[0], REPEAT_CODE, Chunk(s) - MIN_REPEAT, Rle(s[Chunk(s)..]));
    }
  }

  lemma OneByOne(a: nat, b: nat, c: nat, rest: seq<nat>)
    ensures [a, b, c] + rest == [a] + ([b] + ([c] + rest))
  {
  }

  /** One chunk is read back. */
  lemma ReadChunk(table: seq<Entry>, tl: seq<nat>, s: seq<nat>, t: seq<bool>, p: nat, out: seq<nat>, val: nat, size: nat)
    returns (p': nat)
    requires TableOf(table, tl) && s != [] && |out| + |s| == size && val <= 13
    requires (forall k :: 0 <= k < |out| ==> out[k] <= 13) && forall k :: 0 <= k < |s| ==> s[k] <= 13
    requires Holds(tl, Rle(s), t, p)
    ensures ReadStream(table, t, p, out, val, size) == ReadStream(table, t, p', out + s[..Chunk(s)], s[0], size)
    ensures Holds(tl, Rle(s[Chunk(s)..]), t, p')
    ensures p + |CodesBits(Rle(s), tl)| == p' + |CodesBits(Rle(s[Chunk(s)..]), tl)|
  {
    hide ReadStream, CodesBits, Table, Holds, Rle, StreamTable, Chunk;
    var c := Chunk(s);
    var rest := Rle(s[c..]);
    RleFirst(s);
    TableShape(table, tl);
    if c == 1 {
      ReadFirst(table, tl, s[0], rest, t, p);
      StepLiteral(table, t, p, out, val, size, s[0], tl[s[0]]);
      p' := p + tl[s[0]];
      assert s[..c] == [s[0]];
    } else {
      var count := c - MIN_REPEAT;
      ReadFirst(table, tl, s[0], [REPEAT_CODE] + ([count] + rest), t, p);
      var p1 := p + tl[s[0]];
      StepLiteral(table, t, p, out, val, size, s[0], tl[s[0]]);
      ReadFirst(table, tl, REPEAT_CODE, [count] + rest, t, p1);
      ReadFirst(table, tl, count, rest, t, p1 + tl[REPEAT_CODE]);
      StepRepeat(table, t, p1, out + [s[0]], s[0], size, tl[REPEAT_CODE], count, tl[count]);
      p' := p1 + tl[REPEAT_CODE] + tl[count];
      assert out + [s[0]] + Rep(s[0], c - 1) == out + s[..c];
    }
  }

  lemma TableShape(table: seq<Entry>, tl: seq<nat>)
    requires TableOf(table, tl)
    ensures StreamTable(table) && |table| == LOOKUP_SIZE && |tl| == NUM_LEN_CODES
  {
  }

  lemma {:induction false} StreamRoundTrip(table: seq<Entry>, tl: seq<nat>, s: seq<nat>, t: seq<bool>, p: nat,
                                           out: seq<nat>, val: nat, size: nat)
    requires TableOf(table, tl) && |out| + |s| == size && val <= 13
    requires (forall k :: 0 <= k < |out| ==> out[k] <= 13) && forall k :: 0 <= k < |s| ==> s[k] <= 13
    requires Holds(tl, Rle(s), t, p)
    ensures ReadStream(table, t, p, out, val, size) == Got(out + s, p + |CodesBits(Rle(s), tl)|)
    decreases |s|
  {
    hide ReadStream, CodesBits, Table, Holds, Rle, StreamTable, TableOf;
    TableShape(table, tl);
    if s == [] {
      StreamEmpty(table, tl, t, p, out, val);
      assert out + s == out;
    } else {
      var c := Chunk(s);
      var p' := ReadChunk(table, tl, s, t, p, out, val, size);
      Regroup(out, s, c);
      StreamRoundTrip(table, tl, s[c..], t, p', out + s[..c], s[0], size);
    }
  }

  lemma Regroup(out: seq<nat>, s: seq<nat>, c: nat)
    requires c <= |s|
    ensures out + s[..c] + s[c..] == out + s
  {
  }

  lemma StreamEmpty(table: seq<Entry>, tl: seq<nat>, t: seq<bool>, p: nat, out: seq<nat>, val: nat)
    requires StreamTable(table) && val <= 13 && forall k :: 0 <= k < |out| ==> out[k] <= 13
    ensures Rle([]) == [] && CodesBits([], tl) == []
    ensures ReadStream(table, t, p, out, val, |out|) == Got(out, p)
  {
  }

  // ----- the whole description -----

  /** n three-bit lengths. */
  function ReadLengths(t: seq<bool>, p: nat, n: nat): (r: Parse<seq<nat>>)
    ensures r.Got? ==> |r.value| == n && r.pos == p + 3 * n && forall k :: 0 <= k < n ==> r.value[k] <= 7
    ensures r.Failed? ==> r.code == TRUNCATED
  {
    if n == 0 then Got([], p)
    else
      match ReadLengths(t, p, n - 1)
      case Failed(e) => Failed(e)
      case Got(v, p') =>
        var b := ReadAt(t, p', 3);
        assert Pow2(3) == 8;
        if b < 0 then Failed(b) else Got(v + [b], p' + 3)
  }

  function LengthsBits(tl: seq<nat>, n: nat): (b: seq<bool>)
    requires n <= |tl|
    ensures |b| == 3 * n
  {
    if n == 0 then [] else LengthsBits(tl, n - 1) + BitsOf(tl[n - 1], 3)
  }

  lemma ThreeBits()
    ensures Pow2(3) == 8
  {
  }

  lemma {:induction false} LengthsRoundTrip(tl: seq<nat>, t: seq<bool>, p: nat, n: nat)
    requires n <= |tl| && forall k :: 0 <= k < n ==> tl[k] <= 7
    requires HasBits(t, p, LengthsBits(tl, n))
    ensures ReadLengths(t, p, n) == Got(tl[..n], p + 3 * n)
  {
    hide Pow2, HasBits, BitsOf, ReadAt;
    if n > 0 {
      HasBitsSplit(t, p, LengthsBits(tl, n - 1), BitsOf(tl[n - 1], 3));
      LengthsRoundTrip(tl, t, p, n - 1);
      ThreeBits();
      ReadAtBits(t, p + 3 * (n - 1), tl[n - 1], 3);
      assert tl[..n] == tl[..n - 1] + [tl[n - 1]];
    }
  }

  /** The code lengths described at position p, given the previous block's. */
  function HtDec(t: seq<bool>, p: nat, prev: seq<nat>): (r: Parse<seq<nat>>)
    requires Lengths(prev)
    ensures r.Got? ==> Lengths(r.value) && r.pos > p
    ensures r.Failed? ==> r.code < 0
  {
    var changed := ReadAt(t, p, 1);
    if changed < 0 then Failed(changed)
    else if changed == 0 then DefaultFacts(); Got(DefaultLengths(), p + 1)
    else NewTree(t, p + 1, prev)
  }

  function NewTree(t: seq<bool>, p: nat, prev: seq<nat>): (r: Parse<seq<nat>>)
    requires Lengths(prev)
    ensures r.Got? ==> Lengths(r.value) && r.pos > p
    ensures r.Failed? ==> r.code < 0
  {
    var layout := ReadAt(t, p, 2);
    assert Pow2(2) == 4;
    if layout < 0 then Failed(layout)
    else
      match ReadLengths(t, p + 2, NUM_LEN_CODES)
      case Failed(e) => Failed(e)
      case Got(tl, p') =>
        if Total(tl) > LOOKUP_SIZE then Failed(DAMAGED)
        else
          DescriptionTable(tl);
          match ReadStream(Table(tl, Values(NUM_LEN_CODES)), t, p', [], 0, LayoutSize(layout))
          case Failed(e) => Failed(e)
          case Got(stream, p'') =>
            PresentTotal(layout);
            Got(Unpack(layout, stream, prev, NUM_SYMBOLS), p'')
  }

  /** The delta stream of a block's lengths. */
  function DeltaStream(lengths: seq<nat>, prev: seq<nat>): seq<nat>
    requires Lengths(lengths) && Lengths(prev)
  {
    Pack(Layout(lengths), lengths, prev, NUM_SYMBOLS)
  }

  /** tl is the code in which lengths are described, if they are not the default ones. */
  ghost predicate Describing(tl: seq<nat>, lengths: seq<nat>, prev: seq<nat>)
    requires Lengths(lengths) && Lengths(prev)
  {
    lengths != DefaultLengths() ==> DescriptionCode(tl, Rle(DeltaStream(lengths, prev)))
  }

  /** The bits the compressor writes for a block's lengths, tl being the description's own code. */
  ghost function TreeBits(lengths: seq<nat>, prev: seq<nat>, tl: seq<nat>): seq<bool>
    requires Lengths(lengths) && Lengths(prev) && Describing(tl, lengths, prev)
  {
    if lengths == DefaultLengths() then BitsOf(0, 1)
    else
      BitsOf(1, 1) + (BitsOf(Layout(lengths), 2)
      + (LengthsBits(tl, NUM_LEN_CODES) + CodesBits(Rle(DeltaStream(lengths, prev)), tl)))
  }

  /** Any length vector survives the trip, against any previous vector. */
  lemma TreeRoundTrip(lengths: seq<nat>, prev: seq<nat>, tl: seq<nat>, t: seq<bool>, p: nat)
    requires Lengths(lengths) && Lengths(prev) && Describing(tl, lengths, prev)
    requires HasBits(t, p, TreeBits(lengths, prev, tl)) && p + |TreeBits(lengths, prev, tl)| + MAX_CODE_BITS <= |t|
    ensures HtDec(t, p, prev) == Got(lengths, p + |TreeBits(lengths, prev, tl)|)
  {
    hide HasBits, Rle, CodesBits, LengthsBits, Pack, NewTree, BitsOf, ReadAt, DefaultLengths;
    PowersOfTwo();
    if lengths == DefaultLengths() {
      ReadAtBits(t, p, 0, 1);
    } else {
      var a, b := BitsOf(1, 1), BitsOf(Layout(lengths), 2);
      var rest := LengthsBits(tl, NUM_LEN_CODES) + CodesBits(Rle(DeltaStream(lengths, prev)), tl);
      HasBitsSplit(t, p, a, b + rest);
      ReadAtBits(t, p, 1, 1);
      HasBitsSplit(t, p + 1, b, rest);
      NewTreeRoundTrip(lengths, prev, tl, t, p + 1);
    }
  }

  lemma PowersOfTwo()
    ensures Pow2(1) == 2 && Pow2(2) == 4 && Pow2(3) == 8
  {
  }

  lemma NewTreeRoundTrip(lengths: seq<nat>, prev: seq<nat>, tl: seq<nat>, t: seq<bool>, p: nat)
    requires Lengths(lengths) && Lengths(prev) && DescriptionCode(tl, Rle(DeltaStream(lengths, prev)))
    requires HasBits(t, p, BitsOf(Layout(lengths), 2))
    requires var rest := LengthsBits(tl, NUM_LEN_CODES) + CodesBits(Rle(DeltaStream(lengths, prev)), tl);
             HasBits(t, p + 2, rest) && p + 2 + |rest| + MAX_CODE_BITS <= |t|
    ensures NewTree(t, p, prev)
            == Got(lengths, p + 2 + |LengthsBits(tl, NUM_LEN_CODES)| + |CodesBits(Rle(DeltaStream(lengths, prev)), tl)|)
  {
    hide HasBits, Rle, CodesBits, LengthsBits, Pack, Unpack, BitsOf, ReadAt, ReadLengths, ReadStream, Table, Layout, LayoutSize;
    var layout, stream := Layout(lengths), DeltaStream(lengths, prev);
    var codes := CodesBits(Rle(stream), tl);
    PowersOfTwo();
    ReadAtBits(t, p, layout, 2);
    HasBitsSplit(t, p + 2, LengthsBits(tl, NUM_LEN_CODES), codes);
    LengthsRoundTrip(tl, t, p + 2, NUM_LEN_CODES);
    assert tl[..NUM_LEN_CODES] == tl;
    DescriptionTable(tl);
    PresentTotal(layout);
    StreamRoundTrip(Table(tl, Values(NUM_LEN_CODES)), tl, stream, t, p + 2 + 3 * NUM_LEN_CODES, [], 0, LayoutSize(layout));
    assert [] + stream == stream;
    UnpackPack(layout, lengths, prev, stream, NUM_SYMBOLS);
    assert lengths[..NUM_SYMBOLS] == lengths;
  }
}
