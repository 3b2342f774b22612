/** The decompressor's side of Huffman lookups and of the tree description. */
module TreeReader {
  import opened BitStrings
  import opened ErrorCodes
  import opened Options
  import opened BitIO
  import opened Canonical
  import opened Tables
  import opened TreeCode

  /** Looks up the next code: 13 bits are peeked at, the code's own length is consumed. */
  method Huff(bi: BitReader, table: array<Entry>) returns (r: int, code: Code)
    requires bi.Valid() && table != bi.buffer as object && GoodTable(table[..])
    modifies bi, bi.src, bi.buffer
    ensures bi.Valid() && (if r < 0 then bi.err == r else bi.err == 0)
    ensures r == if old(bi.err) != 0 then old(bi.err) else Lookup(table[..], bi.Text(), old(bi.consumed))
    ensures r >= 0 ==> code == table[r].code && bi.consumed == old(bi.consumed) + table[r].len
    ensures r < 0 ==> bi.consumed == old(bi.consumed)
    ensures table[..] == old(table[..])
  {
    ghost var entries := table[..];
    Pow2Values();
    r := bi.Peek(13);
    assert table[..] == entries;
    code := FILLER.code;
    if r < 0 {
      return;
    }
    var c := table[r];
    assert c == entries[r];
    bi.Skip(c.len);
    code := c.code;
  }

  method GetLengths(bi: BitReader) returns (ret: int, tl: seq<nat>)
    requires bi.Valid() && bi.err == 0
    modifies bi, bi.src, bi.buffer
    ensures bi.Valid() && (bi.err == 0 || bi.err == TRUNCATED)
    ensures match ReadLengths(bi.Text(), old(bi.consumed), NUM_LEN_CODES)
            case Got(v, p) => ret == 0 && tl == v && bi.consumed == p && bi.err == 0
            case Failed(e) => ret == e
  {
    hide ReadAt, BitReader.Valid, Pow2;
    tl := [];
    ghost var p := bi.consumed;
    PowersOfTwo();
    for i := 0 to NUM_LEN_CODES
      invariant bi.Valid() && bi.err == 0
      invariant ReadLengths(bi.Text(), p, i) == Got(tl, bi.consumed)
    {
      var b := bi.Get(3);
      if b < 0 {
        FailedLengths(bi.Text(), p, i + 1, NUM_LEN_CODES);
        return b, tl;
      }
      tl := tl + [b];
    }
    return 0, tl;
  }

  lemma {:induction false} FailedLengths(t: seq<bool>, p: nat, m: nat, n: nat)
    requires m <= n && ReadLengths(t, p, m).Failed?
    ensures ReadLengths(t, p, n) == ReadLengths(t, p, m)
    decreases n
  {
    if m < n {
      FailedLengths(t, p, m, n - 1);
    }
  }

  /** Decodes the delta stream, expanding repeats. */
  method GetStream(bi: BitReader, table: array<Entry>, size: nat) returns (ret: int, stream: seq<nat>)
    requires bi.Valid() && bi.err == 0 && StreamTable(table[..]) && table != bi.buffer as object && 0 < size
    modifies bi, bi.src, bi.buffer
    ensures bi.Valid() && table[..] == old(table[..])
    ensures match ReadStream(table[..], bi.Text(), old(bi.consumed), [], 0, size)
            case Got(v, p) => ret == 0 && stream == v && bi.consumed == p && bi.err == 0
            case Failed(e) => ret == e
  {
    hide Lookup, GoodTable, BitReader.Valid, ReadStream;
    ghost var entries, whole := table[..], ReadStream(table[..], bi.Text(), bi.consumed, [], 0, size);
    stream := [];
    var val: nat := 0;
    while |stream| < size
      invariant bi.Valid() && bi.err == 0 && table[..] == entries && StreamTable(entries)
      invariant |stream| <= size && val <= 13 && forall k :: 0 <= k < |stream| ==> stream[k] <= 13
      invariant ReadStream(entries, bi.Text(), bi.consumed, stream, val, size) == whole
      decreases |bi.Text()| - bi.consumed
    {
      StreamTableGood(entries);
      bi.InText();
      NextCodes(entries, bi.Text(), bi.consumed, stream, val, size);
      var r, c := Huff(bi, table);
      if r < 0 {
        return r, stream;
      }
      if c.value == REPEAT_CODE {
        bi.InText();
        r, c := Huff(bi, table);
        if r < 0 {
          return r, stream;
        }
        var n := c.value + MIN_REPEAT - 1;
        if n > size - |stream| {
          return DAMAGED, stream;
        }
        stream := stream + Rep(val, n);
      } else {
        val := c.value;
        stream := stream + [c.value];
      }
    }
    StreamDone(entries, bi.Text(), bi.consumed, stream, val);
    return 0, stream;
  }

  lemma StreamDone(table: seq<Entry>, t: seq<bool>, p: nat, out: seq<nat>, val: nat)
    requires StreamTable(table) && val <= 13 && forall k :: 0 <= k < |out| ==> out[k] <= 13
    ensures ReadStream(table, t, p, out, val, |out|) == Got(out, p)
  {
  }

  /** The next code of the stream: a length, or a repeat with its count. */
  lemma NextCodes(table: seq<Entry>, t: seq<bool>, p: nat, out: seq<nat>, val: nat, size: nat)
    requires StreamTable(table) && |table| == LOOKUP_SIZE && |out| < size && val <= 13 && forall k :: 0 <= k < |out| ==> out[k] <= 13
    ensures var whole, w := ReadStream(table, t, p, out, val, size), Lookup(table, t, p);
            if w < 0 then whole == Failed(w)
            else
              var c, p1 := table[w].code.value, p + table[w].len;
              p1 > p && if c != REPEAT_CODE then c <= 13 && whole == ReadStream(table, t, p1, out + [c], c, size)
              else
                var w2 := Lookup(table, t, p1);
                if w2 < 0 then whole == Failed(w2)
                else
                  var n, p2 := table[w2].code.value + MIN_REPEAT - 1, p1 + table[w2].len;
                  if n > size - |out| then whole == Failed(DAMAGED)
                  else whole == ReadStream(table, t, p2, out + Rep(val, n), val, size)
  {
    hide Lookup;
    StreamTableGood(table);
  }

  lemma StreamTableGood(table: seq<Entry>)
    requires StreamTable(table)
    ensures GoodTable(table) && |table| == LOOKUP_SIZE
  {
  }

  /** One run of the layout: n symbols that all have, or all lack, a delta code. */
  method UnpackRun(t: nat, stream: seq<nat>, prev: seq<nat>, lengths0: seq<nat>, symp0: nat, n: nat, listed: bool)
    returns (lengths: seq<nat>, symp: nat)
    requires Lengths(prev) && PresentCount(t, NUM_SYMBOLS) == |stream| && forall k :: 0 <= k < |stream| ==> stream[k] <= 13
    requires |lengths0| + n <= NUM_SYMBOLS
    requires forall k: nat :: |lengths0| <= k < |lengths0| + n ==> (Present(t, k) <==> listed)
    requires symp0 == PresentCount(t, |lengths0|) <= |stream| && lengths0 == Unpack(t, stream, prev, |lengths0|)
    ensures |lengths| == |lengths0| + n && symp == PresentCount(t, |lengths|) <= |stream|
    ensures lengths == Unpack(t, stream, prev, |lengths|)
  {
    hide Unpack, Present, PresentCount;
    lengths, symp := lengths0, symp0;
    while |lengths| < |lengths0| + n
      invariant |lengths0| <= |lengths| <= |lengths0| + n && symp == PresentCount(t, |lengths|) <= |stream|
      invariant lengths == Unpack(t, stream, prev, |lengths|)
    {
      var i := |lengths|;
      PresentMonotone(t, i + 1, NUM_SYMBOLS);
      UnpackNext(t, stream, prev, i);
      if listed {
        assert Present(t, i);
        RowShape(prev[i]);
        lengths := lengths + [VVAL[prev[i]][stream[symp]]];
        symp := symp + 1;
      } else {
        lengths := lengths + [0];
      }
    }
  }

  lemma UnpackNext(t: nat, stream: seq<nat>, prev: seq<nat>, i: nat)
    requires Lengths(prev) && i < NUM_SYMBOLS && PresentCount(t, i + 1) <= |stream| && forall k :: 0 <= k < |stream| ==> stream[k] <= 13
    ensures |VVAL| == 14 && |VVAL[prev[i]]| == 14
    ensures if Present(t, i)
            then PresentCount(t, i) < |stream| && PresentCount(t, i + 1) == PresentCount(t, i) + 1
                 && Unpack(t, stream, prev, i + 1) == Unpack(t, stream, prev, i) + [VVAL[prev[i]][stream[PresentCount(t, i)]]]
            else PresentCount(t, i + 1) == PresentCount(t, i)
                 && Unpack(t, stream, prev, i + 1) == Unpack(t, stream, prev, i) + [0]
  {
    hide Present;
    RowShape(prev[i]);
  }

  /** The last symbol is always listed, so the stream is used up exactly at the end. */
  lemma AllListed(t: nat, n: nat)
    requires n <= NUM_SYMBOLS && PresentCount(t, n) == PresentCount(t, NUM_SYMBOLS)
    ensures n == NUM_SYMBOLS
  {
    if n < NUM_SYMBOLS {
      PresentMonotone(t, n, NUM_SYMBOLS - 1);
    }
  }

  lemma NextRun(runs: seq<nat>, t: nat, r: nat, i: nat)
    requires r <= |runs| && Describes(runs, t, r, i)
    ensures r == |runs| ==> i == NUM_SYMBOLS
    ensures r < |runs| ==> var n := runs[r] % 0x200;
                           && i + n <= NUM_SYMBOLS && Describes(runs, t, r + 1, i + n)
                           && forall k: nat :: i <= k < i + n ==> (Present(t, k) <==> runs[r] / 0x200 == 1)
  {
    hide Present;
  }

  lemma NothingUnpacked(t: nat, stream: seq<nat>, prev: seq<nat>)
    requires Lengths(prev) && PresentCount(t, 0) <= |stream| && forall k :: 0 <= k < |stream| ==> stream[k] <= 13
    ensures PresentCount(t, 0) == 0 && Unpack(t, stream, prev, 0) == []
  {
  }

  /** Spreads the delta stream over the layout's runs. */
  method UnpackLengths(t: nat, stream: seq<nat>, prev: seq<nat>) returns (lengths: seq<nat>)
    requires t <= 3 && Lengths(prev) && |stream| == LayoutSize(t) && forall k :: 0 <= k < |stream| ==> stream[k] <= 13
    ensures PresentCount(t, NUM_SYMBOLS) == |stream| && lengths == Unpack(t, stream, prev, NUM_SYMBOLS)
  {
    hide Describes, Unpack, Present, PresentCount;
    LayoutsDescribe(t);
    PresentTotal(t);
    NothingUnpacked(t, stream, prev);
    var runs := LAYOUTS[t];
    lengths := [];
    var r, symp := 0, 0;
    while true
      invariant r <= |runs| && |lengths| <= NUM_SYMBOLS && Describes(runs, t, r, |lengths|)
      invariant symp == PresentCount(t, |lengths|) < |stream| && lengths == Unpack(t, stream, prev, |lengths|)
      decreases |runs| - r
    {
      NextRun(runs, t, r, |lengths|);
      var v := runs[r];
      r := r + 1;
      lengths, symp := UnpackRun(t, stream, prev, lengths, symp, v % 0x200, v / 0x200 == 1);
      if symp >= |stream| {
        break;
      }
    }
    AllListed(t, |lengths|);
  }

  method ReadNewTree(bi: BitReader, prev: seq<nat>, table: array<Entry>) returns (ret: int, lengths: seq<nat>)
    requires bi.Valid() && bi.err == 0 && Lengths(prev) && table.Length == LOOKUP_SIZE && table != bi.buffer as object
    modifies bi, bi.src, bi.buffer, table
    ensures bi.Valid()
    ensures match NewTree(bi.Text(), old(bi.consumed), prev)
            case Got(v, p) => ret == 0 && lengths == v && bi.consumed == p && bi.err == 0
            case Failed(e) => ret == e
  {
    hide ReadLengths, ReadStream, Table, Unpack, Pack, ReadAt, LayoutSize, BitReader.Valid, WordBits, Pow2, Lengths, PresentCount, Start;
    PowersOfTwo();
    lengths := [];
    var t := bi.Get(2);
    if t < 0 {
      return t, lengths;
    }
    var tl;
    ret, tl := GetLengths(bi);
    if ret < 0 {
      return ret, lengths;
    }
    ret := MkTree(table, tl, Values(NUM_LEN_CODES));
    if ret < 0 {
      return ret, lengths;
    }
    DescriptionTable(tl);
    LayoutPositive(t);
    var stream;
    ret, stream := GetStream(bi, table, LayoutSize(t));
    if ret < 0 {
      return ret, lengths;
    }
    lengths := UnpackLengths(t, stream, prev);
  }

  lemma LayoutPositive(t: nat)
    ensures LayoutSize(t) > 0
  {
  }

  /** The next block's lengths, which also replace the previous ones. */
  method ReadTree(bi: BitReader, symprev: array<nat>, table: array<Entry>) returns (ret: int, lengths: seq<nat>)
    requires bi.Valid() && bi.err == 0 && table.Length == LOOKUP_SIZE && table != bi.buffer as object
    requires symprev.Length == NUM_SYMBOLS && Lengths(symprev[..])
    modifies bi, bi.src, bi.buffer, table, symprev
    ensures bi.Valid() && Lengths(symprev[..])
    ensures match HtDec(bi.Text(), old(bi.consumed), old(symprev[..]))
            case Got(v, p) => ret == 0 && lengths == v && symprev[..] == v && bi.consumed == p && bi.err == 0
            case Failed(e) => ret == e
  {
    hide NewTree, ReadAt, DefaultLengths, Low, Val, WordBits, Pow2;
    PowersOfTwo();
    lengths := [];
    ghost var prev := symprev[..];
    var t := bi.Get(1);
    assert symprev[..] == prev;
    if t <= 0 {
      if t == 0 {
        DefaultFacts();
        FillDefault(symprev);
        lengths := symprev[..];
      }
      return t, lengths;
    }
    ret, lengths := ReadNewTree(bi, symprev[..], table);
    if ret < 0 {
      return;
    }
    Remember(symprev, lengths);
  }

  method Remember(symprev: array<nat>, lengths: seq<nat>)
    requires symprev.Length == |lengths|
    modifies symprev
    ensures symprev[..] == lengths
  {
    forall i | 0 <= i < symprev.Length {
      symprev[i] := lengths[i];
    }
  }
}
