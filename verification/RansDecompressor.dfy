/** The method-10 decompressor: block headers, rANS symbols with their extra bits, and the output window. */
module RansDecompressor {
  import opened BitStrings
  import opened ErrorCodes
  import opened Options
  import opened BitIO
  import opened Tables
  import opened LzCodes
  import opened UltraFormat
  import opened UltraDecoder
  import opened Checksum
  import opened Window
  import opened Rans
  import opened RansCoder
  import opened RansFormat

  const FLUSH_SIZE := 0x8000

  /** The window with what has been written and how much may still be produced. */
  class RansWindow {
    const data: array<byte>
    var wpos: nat
    var tail: nat
    var produced: nat
    var remaining: nat
    var csum: bv32
    var sink: seq<byte>
    ghost const base: nat
    ghost const cap: nat
    ghost var hist: seq<byte>

    ghost predicate Valid()
      reads this, data
    {
      && data.Length == WINDOW && wpos < WINDOW && tail < WINDOW
      && Small(csum) && csum == Fold(CSUM_INIT, sink)
      && base + |sink| <= |hist| <= base + |sink| + FLUSH_SIZE && sink == hist[base..base + |sink|]
      && wpos == (base + |sink|) % WINDOW && tail == |hist| % WINDOW && |hist| + remaining == cap
      && produced == (if |hist| < WINDOW then |hist| else WINDOW)
      && Ring(data[..], hist)
    }

    /** Less than half the ring is waiting to be written. */
    ghost predicate Calm()
      reads this
    {
      |hist| < base + |sink| + FLUSH_SIZE
    }

    constructor (master: seq<byte>, limit: nat)
      requires |master| < WINDOW
      ensures Valid() && Calm() && fresh(data) && base == |master| && hist == master && cap == |master| + limit && sink == []
    {
      data := new byte[WINDOW](i => if 0 <= i < |master| then master[i] else 0);
      wpos, tail, produced, remaining := |master|, |master|, |master|, limit;
      csum, sink, base, cap, hist := CSUM_INIT, [], |master|, |master| + limit, master;
      new;
      InitSmall();
      assert data[..|master|] == master;
      RingMaster(data[..], master);
    }

    /** Writes the pending bytes in ring order. */
    method Flush()
      requires Valid()
      modifies this`wpos, this`csum, this`sink
      ensures Valid() && base + |sink| == |hist|
    {
      hide Ring, Fold, Small;
      while wpos != tail
        invariant Valid()
        decreases |hist| - |sink|
      {
        WrapDistance(base + |sink|, |hist|);
        var n := (tail - wpos) % WINDOW;
        var lin := WINDOW - wpos;
        if n > lin {
          n := lin;
        }
        WritePiece(n);
      }
      WrapDistance(base + |sink|, |hist|);
    }

    method WritePiece(n: nat)
      requires Valid() && 1 <= n && base + |sink| + n <= |hist| && wpos + n <= WINDOW
      modifies this`wpos, this`csum, this`sink
      ensures Valid() && |sink| == old(|sink|) + n
    {
      hide Ring, Fold, Small;
      ghost var from := base + |sink|;
      var piece := data[wpos..wpos + n];
      csum := Update(csum, piece);
      FoldConcat(CSUM_INIT, sink, piece);
      RingSlice(data[..], hist, from, n);
      assert data[..][wpos..wpos + n] == piece;
      WrapForward(from, wpos, n);
      sink := sink + piece;
      wpos := (wpos + n) % WINDOW;
    }

    /** One byte of output, while the limit lasts; a half-full ring is written out. */
    method PutByte(b: byte)
      requires Valid() && Calm() && remaining > 0
      modifies this`wpos, this`tail, this`produced, this`remaining, this`csum, this`sink, this`hist, data
      ensures Valid() && Calm() && hist == old(hist) + [b]
    {
      hide Ring, Fold, Small;
      Store(b);
      WrapDistance(base + |sink|, |hist|);
      if (tail - wpos) % WINDOW >= FLUSH_SIZE {
        Flush();
      }
    }

    method Store(b: byte)
      requires Valid() && Calm() && remaining > 0
      modifies this`tail, this`produced, this`remaining, this`hist, data
      ensures Valid() && hist == old(hist) + [b]
    {
      hide Ring, Fold, Small;
      ghost var ring := data[..];
      data[tail] := b;
      assert data[..] == ring[tail := b];
      RingPush(ring, hist, b);
      WrapNext(|hist|, tail);
      hist := hist + [b];
      tail := (tail + 1) % WINDOW;
      remaining := remaining - 1;
      if produced < 65536 {
        produced := produced + 1;
      }
    }

    lemma ByteBack(dist: nat)
      requires Valid() && Reachable(hist, dist)
      ensures data.Length == WINDOW && data[(tail - dist) % WINDOW] == hist[|hist| - dist]
    {
      WrapBack(|hist|, tail, dist);
    }

    lemma Room()
      requires Valid()
      ensures |hist| + remaining == cap && base <= |hist|
      ensures forall dist: nat :: 1 <= dist ==> (Reachable(hist, dist) <==> dist <= produced)
    {
    }

    /** Copies a match, cut at the limit. */
    method CopyMatch(dist: nat, length: nat)
      requires Valid() && Calm() && Reachable(hist, dist)
      modifies this`wpos, this`tail, this`produced, this`remaining, this`csum, this`sink, this`hist, data
      ensures Valid() && Calm() && old(|hist|) <= cap && hist == CopyUpTo(old(hist), dist, length, cap)
    {
      hide RansWindow.Valid, RansWindow.Calm, Copy;
      Room();
      ghost var before, n := hist, if length <= remaining then length else remaining;
      var j := 0;
      while j < length && remaining > 0
        invariant Valid() && Calm() && Reachable(hist, dist) && j <= n <= length
        invariant Copy(hist, dist, n - j) == Copy(before, dist, n) && remaining >= n - j && (n < length ==> remaining == n - j)
        decreases length - j
      {
        ByteBack(dist);
        CopyStep(hist, dist, n - j);
        Room();
        PutByte(data[(tail - dist) % WINDOW]);
        Room();
        j := j + 1;
      }
      CopyNothing(hist, dist);
    }
  }

  // ----- the header -----

  /** n fields of the given width. */
  method GetFields(bi: BitReader, n: nat, width: nat) returns (ok: bool, s: seq<nat>)
    requires bi.Valid() && bi.err == 0 && width <= 16
    modifies bi, bi.src, bi.buffer
    ensures bi.Valid()
    ensures match ReadFields(bi.Text(), old(bi.consumed), n, width)
            case Got(v, p) => ok && s == v && bi.consumed == p && bi.err == 0
            case Failed(_) => !ok
  {
    hide ReadAt, BitReader.Valid;
    s := [];
    ghost var p := bi.consumed;
    for i := 0 to n
      invariant bi.Valid() && bi.err == 0 && ReadFields(bi.Text(), p, i, width) == Got(s, bi.consumed)
    {
      var v := bi.Get(width);
      if v < 0 {
        FailedFields(bi.Text(), p, i + 1, n, width);
        return false, s;
      }
      s := s + [v];
    }
    ok := true;
  }

  lemma {:induction false} FailedFields(t: seq<bool>, p: nat, m: nat, n: nat, width: nat)
    requires m <= n && ReadFields(t, p, m, width).Failed?
    ensures ReadFields(t, p, n, width).Failed?
  {
    hide ReadAt;
    if m < n {
      FailedFields(t, p, m, n - 1, width);
    }
  }

  method GetHeader(bi: BitReader) returns (ok: bool, nsyms: nat, tab: RansTable, rdata: seq<byte>)
    requires bi.Valid() && bi.err == 0
    modifies bi, bi.src, bi.buffer
    ensures bi.Valid()
    ensures match ReadRansHeader(bi.Text(), old(bi.consumed))
            case Got(h, p) => ok && RansHeader(nsyms, tab, rdata) == h && bi.consumed == p && bi.err == 0
            case Failed(_) => !ok
  {
    hide ReadFields, BitReader.Valid, Normalised, Pow2;
    nsyms, tab, rdata := 0, RansTable([], []), [];
    var sizes, freqs, bytes;
    PowersOf8();
    ok, sizes := GetFields(bi, 4, 8);
    if !ok {
      return;
    }
    ok, freqs := GetFields(bi, MAX_SYMS, 12);
    if !ok {
      return;
    }
    tab := BuildTable(freqs);
    ok, bytes := GetFields(bi, sizes[2] * 256 + sizes[3], 8);
    if !ok {
      return;
    }
    nsyms, rdata := sizes[0] * 256 + sizes[1], bytes;
  }

  lemma PowersOf8()
    ensures Pow2(8) == 256
  {
    Pow2Values();
  }

  // ----- a block's symbols -----

  /** Extra bits, none for width 0. */
  method GetBits(bi: BitReader, n: nat) returns (e: int)
    requires bi.Valid() && bi.err == 0 && n <= 16
    modifies bi, bi.src, bi.buffer
    ensures bi.Valid() && e == ReadAt(bi.Text(), old(bi.consumed), n)
    ensures e >= 0 ==> bi.consumed == old(bi.consumed) + n && bi.err == 0
  {
    hide ReadAt, BitReader.Valid;
    e := 0;
    if n > 0 {
      e := bi.Get(n);
    } else {
      bi.InText();
      NoBits(bi.Text(), bi.consumed);
    }
  }

  /** The rest of a match after its distance: its length symbol, extra bits, and the copy. */
  method MatchRest(bi: BitReader, w: RansWindow, dec: RansDecoder, dist: nat) returns (fault: bool)
    requires bi.Valid() && bi.err == 0 && w.Valid() && w.Calm() && dec.Valid() && 1 <= dist
    requires w.data != bi.buffer && dec.lookup != w.data as object && dec.lookup != bi.buffer as object
    modifies bi, bi.src, bi.buffer, w, w.data, dec
    ensures bi.Valid() && w.Valid() && w.Calm() && dec.Valid() && old(|w.hist|) <= w.cap
    ensures var (sym2, d2) := DecodeOne(dec.tab, old(dec.Value()));
            var ls := if sym2 < FIRST_LEN then 0 else sym2 - FIRST_LEN;
            var e2 := ReadAt(bi.Text(), old(bi.consumed), LenBits(ls));
            if e2 < 0 || !Reachable(old(w.hist), dist) then fault
            else
              && !fault && bi.err == 0 && bi.consumed == old(bi.consumed) + LenBits(ls) && dec.Value() == d2
              && w.hist == CopyUpTo(old(w.hist), dist, LenBase(ls) + e2, w.cap)
  {
    hide ReadAt, BitReader.Valid, RansWindow.Valid, RansWindow.Calm, DecodeOne, Copy, LenBase, LenBits, SymbolAt;
    w.Room();
    var sym2 := dec.Decode();
    var ls := if sym2 < FIRST_LEN then 0 else sym2 - FIRST_LEN;
    var e2 := GetBits(bi, LenBits(ls));
    if e2 < 0 {
      return true;
    }
    if dist > w.produced {
      return true;
    }
    w.CopyMatch(dist, LenBase(ls) + e2);
    fault := false;
  }

  lemma BodyStep(tab: RansTable, d: Puller, t: seq<bool>, p: nat, left: nat, hist: seq<byte>, cap: nat)
    requires |tab.freq| == |tab.cum| == MAX_SYMS && |hist| <= cap
    ensures left == 0 ==> ReadRansBody(tab, d, t, p, left, hist, cap) == Done(hist, p)
    ensures left > 0 ==>
      var whole := ReadRansBody(tab, d, t, p, left, hist, cap);
      var (sym, d1) := DecodeOne(tab, d);
      if sym < NUM_BYTE_SYM then
        whole == ReadRansBody(tab, d1, t, p, left - 1, if |hist| < cap then hist + [sym as byte] else hist, cap)
      else if sym >= FIRST_LEN then whole == ReadRansBody(tab, d1, t, p, left - 1, hist, cap)
      else true
  {
    hide DecodeOne, ReadAt;
  }

  lemma MatchStep(tab: RansTable, d: Puller, t: seq<bool>, p: nat, left: nat, hist: seq<byte>, cap: nat)
    requires |tab.freq| == |tab.cum| == MAX_SYMS && |hist| <= cap && left > 0
    requires NUM_BYTE_SYM <= DecodeOne(tab, d).0 < FIRST_LEN
    ensures var whole := ReadRansBody(tab, d, t, p, left, hist, cap);
            var (sym, d1) := DecodeOne(tab, d);
            var ds := sym - NUM_BYTE_SYM;
            var e := ReadAt(t, p, DistBits(ds));
            if e < 0 then whole == Fault
            else if DistBase(ds) + e == EOB_MARK || left == 1 then whole == Done(hist, p + DistBits(ds))
            else
              var (sym2, d2) := DecodeOne(tab, d1);
              var ls := if sym2 < FIRST_LEN then 0 else sym2 - FIRST_LEN;
              var p1 := p + DistBits(ds);
              var e2 := ReadAt(t, p1, LenBits(ls));
              whole == if e2 < 0 || !Reachable(hist, DistBase(ds) + e) then Fault
                       else ReadRansBody(tab, d2, t, p1 + LenBits(ls), left - 2,
                                         CopyUpTo(hist, DistBase(ds) + e, LenBase(ls) + e2, cap), cap)
  {
    hide DecodeOne, ReadAt, Copy, DistBase, DistBits, LenBase, LenBits;
  }

  /** Decodes a block's symbols; true if it ended in a fault. */
  method BlockBody(bi: BitReader, w: RansWindow, dec: RansDecoder, nsyms: nat) returns (fault: bool)
    requires bi.Valid() && bi.err == 0 && w.Valid() && w.Calm() && dec.Valid() && |w.hist| <= w.cap
    requires w.data != bi.buffer && dec.lookup != w.data as object && dec.lookup != bi.buffer as object
    modifies bi, bi.src, bi.buffer, w, w.data, dec
    ensures bi.Valid() && w.Valid() && w.Calm()
    ensures match old(ReadRansBody(dec.tab, dec.Value(), bi.Text(), bi.consumed, nsyms, w.hist, w.cap))
            case Done(h, p) => !fault && w.hist == h && bi.consumed == p && bi.err == 0
            case Fault => fault
  {
    hide ReadAt, ReadRansBody, BitReader.Valid, RansWindow.Valid, RansWindow.Calm, DecodeOne, CopyUpTo, DistBase, DistBits, LenBase, LenBits,
         SymbolAt, Reachable;
    ghost var t, cap, tab := bi.Text(), w.cap, dec.tab;
    ghost var whole := ReadRansBody(tab, dec.Value(), t, bi.consumed, nsyms, w.hist, cap);
    var s := 0;
    while s < nsyms
      invariant s <= nsyms && bi.Valid() && bi.err == 0 && w.Valid() && w.Calm() && dec.Valid() && |w.hist| <= cap
      invariant whole == ReadRansBody(tab, dec.Value(), t, bi.consumed, nsyms - s, w.hist, cap)
    {
      BodyStep(tab, dec.Value(), t, bi.consumed, nsyms - s, w.hist, cap);
      w.Room();
      ghost var d := dec.Value();
      var sym := dec.Decode();
      if sym < NUM_BYTE_SYM {
        if w.remaining > 0 {
          w.PutByte(sym);
          w.Room();
        }
      } else if sym < FIRST_LEN {
        MatchStep(tab, d, t, bi.consumed, nsyms - s, w.hist, cap);
        var ds := sym - NUM_BYTE_SYM;
        var e := GetBits(bi, DistBits(ds));
        if e < 0 {
          return true;
        }
        var dist := DistBase(ds) + e;
        if dist == EOB_MARK {
          s := s + 1;
          if s < nsyms {
            var _ := dec.Decode();
          }
          return false;
        }
        s := s + 1;
        if s >= nsyms {
          return false;
        }
        fault := MatchRest(bi, w, dec, dist);
        if fault {
          return;
        }
        w.Room();
      }
      s := s + 1;
    }
    BodyStep(tab, dec.Value(), t, bi.consumed, 0, w.hist, cap);
    fault := false;
  }

  // ----- the whole stream -----

  lemma StreamStep(t: seq<bool>, p: nat, hist: seq<byte>, cap: nat)
    requires |hist| <= cap
    ensures var d := RansDecode(t, p, hist, cap);
            var present := ReadAt(t, p, 1);
            var h := ReadRansHeader(t, p + 1);
            && (present < 0 ==> d == Rejected)
            && (present == 0 ==> d == Decoded(hist, p + 1))
            && (present > 0 && h.Failed? ==> d == Rejected)
            && (present > 0 && h.Got? ==>
                  match ReadRansBody(h.value.tab, Head(h.value.data, 4), t, h.pos, h.value.nsyms, hist, cap)
                  case Fault => d == Rejected
                  case Done(h', p') => |h'| <= cap && d == RansDecode(t, p', h', cap))
    ensures ReadAt(t, p, 1) <= 1
  {
    assert Pow2(1) == 2;
    hide ReadAt, ReadRansHeader, ReadRansBody, Head;
  }

  /** What the decompressor reports, given the meaning of the whole stream. */
  ghost predicate RansReports(d: Decoding, base: nat, ret: int, out: seq<byte>, csum: bv32)
  {
    if d.Rejected? then ret < 0
    else |d.hist| >= base && ret == |d.hist| - base && out == d.hist[base..] && csum == Checked(out)
  }

  /** One block: its header and its symbols; false on a fault. */
  method Block(bi: BitReader, w: RansWindow) returns (ok: bool)
    requires bi.Valid() && bi.err == 0 && w.Valid() && w.Calm() && w.data != bi.buffer && |w.hist| <= w.cap
    modifies bi, bi.src, bi.buffer, w, w.data
    ensures bi.Valid() && w.Valid() && w.Calm()
    ensures var h := ReadRansHeader(bi.Text(), old(bi.consumed));
            if h.Failed? then !ok
            else match ReadRansBody(h.value.tab, Head(h.value.data, 4), bi.Text(), h.pos, h.value.nsyms, old(w.hist), w.cap)
                 case Done(h', p) => ok && w.hist == h' && bi.consumed == p && bi.err == 0
                 case Fault => !ok
  {
    hide ReadAt, ReadRansBody, BitReader.Valid, RansWindow.Valid, RansWindow.Calm, ReadFields, SymbolAt, Normalised, Head;
    var nsyms, tab, rdata;
    ok, nsyms, tab, rdata := GetHeader(bi);
    if !ok {
      return;
    }
    var dec := new RansDecoder(tab, rdata);
    var fault := BlockBody(bi, w, dec, nsyms);
    ok := !fault;
  }

  /** Decompresses a method-10 stream against a master, up to a limit; any fault rejects it. */
  method DecompressorRans(src: ByteSource, master: seq<byte>, limit: nat) returns (ret: int, out: seq<byte>, csum: bv32)
    requires src.pos == 0 && |master| < WINDOW
    modifies src
    ensures RansReports(RansDecode(WordBits(src.data), 0, master, |master| + limit), |master|, ret, out, csum)
  {
    hide ReadAt, ReadRansBody, ReadRansHeader, BitReader.Valid, RansWindow.Valid, RansWindow.Calm, RansDecode, WordBits, Fold, Low16, Head;
    var w := new RansWindow(master, limit);
    var bi := new BitReader(src);
    ghost var t, cap := WordBits(src.data), |master| + limit;
    ghost var d := RansDecode(t, 0, master, cap);
    out, csum := [], 0;
    while true
      invariant bi.Valid() && bi.err == 0 && w.Valid() && w.Calm() && |w.hist| <= cap && bi.Text() == t
      invariant d == RansDecode(t, bi.consumed, w.hist, cap)
      decreases |t| - bi.consumed
    {
      bi.InText();
      StreamStep(t, bi.consumed, w.hist, cap);
      ghost var p := bi.consumed;
      var present := bi.Get(1);
      if present != 1 {
        if present < 0 {
          return present, out, csum;
        }
        break;
      }
      bi.InText();
      BodyForward(t, bi.consumed, w.hist, cap);
      var ok := Block(bi, w);
      if !ok {
        return DAMAGED, out, csum;
      }
    }
    w.Flush();
    WindowReport(w);
    ret, out, csum := limit - w.remaining, w.sink, Low16(w.csum);
  }

  lemma BodyForward(t: seq<bool>, p: nat, hist: seq<byte>, cap: nat)
    requires |hist| <= cap
    ensures var h := ReadRansHeader(t, p);
            h.Got? ==> match ReadRansBody(h.value.tab, Head(h.value.data, 4), t, h.pos, h.value.nsyms, hist, cap)
                       case Done(_, p') => p' >= p
                       case Fault => true
  {
    hide ReadRansHeader, ReadRansBody, Head;
  }

  lemma WindowReport(w: RansWindow)
    requires w.Valid() && w.base + |w.sink| == |w.hist|
    ensures w.base <= |w.hist| && w.sink == w.hist[w.base..] && w.cap - w.remaining == |w.hist| && Low16(w.csum) == Checked(w.sink)
  {
    hide Fold, Low16, Ring;
  }
}
