/** rANS symbol by symbol: the encoder's stack of bytes and the decoder that unwinds it. */
module RansCoder {
  import opened BitStrings
  import opened Tally
  import opened Rans

  const U32 := 0x1_0000_0000
  const UPPER := 0x8_0000  // (RANS_L >> 12) << 8

  /** The encoder's state and the bytes it has put out, newest last. */
  datatype Coder = Coder(state: nat, rev: seq<byte>)

  function Start(): Coder { Coder(RANS_L, []) }

  predicate InRange(x: nat) { RANS_L <= x < RANS_TOP }

  /** Puts out low bytes until the state leaves room for a symbol of this frequency. */
  function Shrink(c: Coder, f: nat): Coder
    requires f > 0
    decreases c.state
  {
    if c.state >= UPPER * f then Shrink(Coder(c.state / 256, c.rev + [c.state % 256]), f) else c
  }

  function Push(x: nat, f: nat, cum: nat): nat
    requires f > 0
  {
    (x / f) * PROB_SCALE + cum + x % f
  }

  /** A symbol without a frequency is skipped. */
  function EncodeOne(tab: RansTable, c: Coder, sym: nat): Coder
    requires |tab.freq| == |tab.cum| == MAX_SYMS && sym < MAX_SYMS
  {
    if tab.freq[sym] == 0 then c
    else var s := Shrink(c, tab.freq[sym]); Coder(Push(s.state, tab.freq[sym], tab.cum[sym]), s.rev)
  }

  /** The encoder runs from the last symbol to the first. */
  function EncodeAll(tab: RansTable, syms: seq<nat>): Coder
    requires |tab.freq| == |tab.cum| == MAX_SYMS && forall k :: 0 <= k < |syms| ==> syms[k] < MAX_SYMS
  {
    if syms == [] then Start() else EncodeOne(tab, EncodeAll(tab, syms[1..]), syms[0])
  }

  /** The encoder's bytes from the newest to the oldest. */
  function Reversed(s: seq<byte>): (r: seq<byte>)
    ensures |r| == |s|
  {
    if s == [] then [] else [s[|s| - 1]] + Reversed(s[..|s| - 1])
  }

  // ----- decoding -----

  /** The decoder's state and the bytes it has not read. */
  datatype Puller = Puller(state: nat, rest: seq<byte>)

  function Grow(d: Puller): Puller
    decreases |d.rest|
  {
    if d.state < RANS_L && d.rest != [] then Grow(Puller(d.state * 256 % U32 + d.rest[0], d.rest[1..])) else d
  }

  /** The symbol whose share of the scale holds the slot: the last one written there, or 0. */
  function SymbolAt(tab: RansTable, slot: nat, n: nat): (s: nat)
    requires |tab.freq| == |tab.cum| == MAX_SYMS && n <= MAX_SYMS
    ensures s < MAX_SYMS
  {
    if n == 0 then 0
    else if tab.cum[n - 1] <= slot < tab.cum[n - 1] + tab.freq[n - 1] then n - 1
    else SymbolAt(tab, slot, n - 1)
  }

  function Pop(state: nat, f: nat, cum: nat): nat
  {
    (f * (state / PROB_SCALE) + state % PROB_SCALE - cum) % U32
  }

  function DecodeOne(tab: RansTable, d: Puller): (r: (nat, Puller))
    requires |tab.freq| == |tab.cum| == MAX_SYMS
    ensures r.0 < MAX_SYMS
  {
    var sym := SymbolAt(tab, d.state % PROB_SCALE, MAX_SYMS);
    (sym, Grow(Puller(Pop(d.state, tab.freq[sym], tab.cum[sym]), d.rest)))
  }

  // ----- the decoder unwinds the encoder -----

  lemma ShareOf(tab: RansTable, sym: nat)
    requires Fair(tab) && sym < MAX_SYMS
    ensures tab.cum[sym] + tab.freq[sym] <= PROB_SCALE
    ensures forall s: nat :: sym < s < MAX_SYMS ==> tab.cum[sym] + tab.freq[sym] <= tab.cum[s]
  {
    SumPart(tab.freq, sym);
    forall s: nat | sym < s < MAX_SYMS ensures tab.cum[sym] + tab.freq[sym] <= tab.cum[s] {
      SumOrder(tab.freq, sym + 1, s);
    }
  }

  /** The shares do not overlap. */
  /** In a table that shares out the scale, only symbols with a frequency are ever decoded. */
  lemma {:induction false} OwnerUsed(tab: RansTable, slot: nat, n: nat)
    requires Fair(tab) && n <= MAX_SYMS && slot < Sum(tab.freq[..n])
    ensures tab.freq[SymbolAt(tab, slot, n)] > 0
  {
    if n > 0 {
      SumPart(tab.freq, n - 1);
      if !(tab.cum[n - 1] <= slot < tab.cum[n - 1] + tab.freq[n - 1]) {
        OwnerUsed(tab, slot, n - 1);
      }
    }
  }

  lemma {:induction false} DecodedUsed(tab: RansTable, d: Puller, n: nat, k: nat)
    requires Fair(tab) && k < n
    ensures tab.freq[DecodeMany(tab, d, n).0[k]] > 0
    decreases n
  {
    hide Grow, SymbolAt, Sum, Pop;
    var (sym, d') := DecodeOne(tab, d);
    if k == 0 {
      assert tab.freq[..MAX_SYMS] == tab.freq;
      OwnerUsed(tab, d.state % PROB_SCALE, MAX_SYMS);
    } else {
      DecodedUsed(tab, d', n - 1, k - 1);
    }
  }

  lemma {:induction false} SlotOwner(tab: RansTable, sym: nat, slot: nat, n: nat)
    requires Fair(tab) && sym < n <= MAX_SYMS && tab.cum[sym] <= slot < tab.cum[sym] + tab.freq[sym]
    ensures SymbolAt(tab, slot, n) == sym
  {
    ShareOf(tab, sym);
    if n - 1 != sym {
      SlotOwner(tab, sym, slot, n - 1);
    }
  }

  lemma DivByte(x: int, f: int)
    requires x >= UPPER * f && f >= 1 && x < RANS_TOP
    ensures x / 256 >= 2048 * f && x / 256 < RANS_L
  {
  }

  /** After shrinking, the state of a symbol of frequency f lies in [2^11 f, 2^19 f). */
  lemma {:induction false} ShrinkRange(c: Coder, f: nat)
    requires f >= 1 && 2048 * f <= c.state < RANS_TOP
    ensures 2048 * f <= Shrink(c, f).state < UPPER * f
    decreases c.state
  {
    if c.state >= UPPER * f {
      DivByte(c.state, f);
      ShrinkRange(Coder(c.state / 256, c.rev + [c.state % 256]), f);
    }
  }

  lemma PushDigits(x: int, f: int, cum: int)
    requires f > 0 && 2048 * f <= x < UPPER * f && 0 <= cum && cum + f <= PROB_SCALE
    ensures 2048 <= x / f < UPPER
    ensures var y := (x / f) * PROB_SCALE + (cum + x % f);
            && y / PROB_SCALE == x / f && y % PROB_SCALE == cum + x % f && RANS_L <= y < RANS_TOP
  {
    assert x == (x / f) * f + x % f;
    DivModUnique(x / f, PROB_SCALE, cum + x % f);
    QuotientRange(x, x / f, x % f, f);
  }

  lemma QuotientRange(x: int, q: int, r: int, f: int)
    requires f > 0 && x == q * f + r && 0 <= r < f && 2048 * f <= x < UPPER * f
    ensures 2048 <= q < UPPER
  {
    if q < 2048 {
      MulLe(q + 1, 2048, f);
      MulAddLeft(q, 1, f);
    }
    if q >= UPPER {
      MulLe(UPPER, q, f);
    }
  }

  lemma PopOfPush(x: nat, f: nat, cum: nat)
    requires f > 0 && 2048 * f <= x < UPPER * f && cum + f <= PROB_SCALE
    ensures InRange(Push(x, f, cum)) && Push(x, f, cum) % PROB_SCALE == cum + x % f && Pop(Push(x, f, cum), f, cum) == x
  {
    PushDigits(x, f, cum);
    var y := Push(x, f, cum);
    assert f * (y / PROB_SCALE) + x % f == x;
  }

  /** Encoding keeps the state in [2^23, 2^31), and decoding finds the symbol and the state before it. */
  lemma PushPop(tab: RansTable, x: nat, sym: nat)
    requires Fair(tab) && sym < MAX_SYMS && tab.freq[sym] > 0
    requires 2048 * tab.freq[sym] <= x < UPPER * tab.freq[sym]
    ensures var y := Push(x, tab.freq[sym], tab.cum[sym]);
            && InRange(y) && SymbolAt(tab, y % PROB_SCALE, MAX_SYMS) == sym
            && Pop(y, tab.freq[sym], tab.cum[sym]) == x
  {
    hide SymbolAt, Push, Pop, Sum;
    var f, cum := tab.freq[sym], tab.cum[sym];
    ShareOf(tab, sym);
    PopOfPush(x, f, cum);
    SlotOwner(tab, sym, cum + x % f, MAX_SYMS);
  }

  lemma ReversedPush(s: seq<byte>, b: byte)
    ensures Reversed(s + [b]) == [b] + Reversed(s)
  {
    assert (s + [b])[..|s|] == s;
  }

  lemma TakeBack(x: nat)
    requires x < RANS_TOP
    ensures x / 256 < RANS_L && x / 256 * 256 % U32 + x % 256 == x
  {
  }

  /** Growing reads back exactly the bytes that shrinking put out. */
  lemma {:induction false} GrowUndoesShrink(c: Coder, f: nat)
    requires f > 0 && c.state < RANS_TOP
    ensures var s := Shrink(c, f);
            Grow(Puller(s.state, Reversed(s.rev))) == Grow(Puller(c.state, Reversed(c.rev)))
    decreases c.state
  {
    if c.state >= UPPER * f {
      var x := c.state;
      var c' := Coder(x / 256, c.rev + [x % 256]);
      GrowUndoesShrink(c', f);
      ReversedPush(c.rev, x % 256);
      TakeBack(x);
      assert ([x % 256] + Reversed(c.rev))[1..] == Reversed(c.rev);
    }
  }

  /** One symbol in and out. */
  lemma OneSymbol(tab: RansTable, c: Coder, sym: nat)
    requires Fair(tab) && InRange(c.state) && sym < MAX_SYMS && tab.freq[sym] > 0
    ensures var c' := EncodeOne(tab, c, sym);
            && InRange(c'.state)
            && DecodeOne(tab, Puller(c'.state, Reversed(c'.rev))) == (sym, Puller(c.state, Reversed(c.rev)))
  {
    hide Shrink, Grow, Push, Pop, SymbolAt, Reversed, Sum;
    var f := tab.freq[sym];
    FrequencyBound(tab, sym);
    ShrinkRange(c, f);
    PushPop(tab, Shrink(c, f).state, sym);
    GrowUndoesShrink(c, f);
    GrowStops(Puller(c.state, Reversed(c.rev)));
  }

  lemma FrequencyBound(tab: RansTable, sym: nat)
    requires Fair(tab) && sym < MAX_SYMS
    ensures tab.freq[sym] <= PROB_SCALE
  {
    SumAtLeast(tab.freq, sym);
  }

  lemma GrowStops(d: Puller)
    ensures d.state >= RANS_L ==> Grow(d) == d
  {
  }

  /** Symbols decoded one after the other. */
  function DecodeMany(tab: RansTable, d: Puller, n: nat): (r: (seq<nat>, Puller))
    requires |tab.freq| == |tab.cum| == MAX_SYMS
    ensures |r.0| == n && forall k :: 0 <= k < n ==> r.0[k] < MAX_SYMS
    decreases n
  {
    if n == 0 then ([], d)
    else
      var (sym, d') := DecodeOne(tab, d);
      var (syms, d'') := DecodeMany(tab, d', n - 1);
      ([sym] + syms, d'')
  }

  ghost predicate AllUsed(tab: RansTable, syms: seq<nat>)
  {
    |tab.freq| == MAX_SYMS && forall k :: 0 <= k < |syms| ==> syms[k] < MAX_SYMS && tab.freq[syms[k]] > 0
  }

  /** The decoder returns all symbols in order and ends in the encoder's first state with every byte read. */
  lemma {:induction false} SymbolsRoundTrip(tab: RansTable, syms: seq<nat>)
    requires Fair(tab) && AllUsed(tab, syms)
    ensures var c := EncodeAll(tab, syms);
            && InRange(c.state)
            && DecodeMany(tab, Puller(c.state, Reversed(c.rev)), |syms|) == (syms, Puller(RANS_L, []))
  {
    if syms != [] {
      hide EncodeOne, DecodeOne, Sum, Reversed;
      SymbolsRoundTrip(tab, syms[1..]);
      OneSymbol(tab, EncodeAll(tab, syms[1..]), syms[0]);
      assert [syms[0]] + syms[1..] == syms;
    }
  }

  lemma ShrinkBytes(c: Coder, f: nat)
    requires f > 0 && c.state < RANS_TOP
    ensures |Shrink(c, f).rev| <= |c.rev| + 2
  {
    if c.state >= UPPER * f {
      var c1 := Coder(c.state / 256, c.rev + [c.state % 256]);
      if c1.state >= UPPER * f {
        var c2 := Coder(c1.state / 256, c1.rev + [c1.state % 256]);
        assert Shrink(c1, f) == Shrink(c2, f);
        assert c2.state < UPPER;
        assert Shrink(c2, f) == c2;
      }
    }
  }

  /** At most two bytes a symbol. */
  lemma {:induction false} BytesBound(tab: RansTable, syms: seq<nat>)
    requires Fair(tab) && AllUsed(tab, syms)
    ensures |EncodeAll(tab, syms).rev| <= 2 * |syms|
  {
    if syms != [] {
      hide Shrink, Sum, DecodeMany;
      SymbolsRoundTrip(tab, syms[1..]);
      BytesBound(tab, syms[1..]);
      ShrinkBytes(EncodeAll(tab, syms[1..]), tab.freq[syms[0]]);
    }
  }

  // ----- the encoder -----

  lemma ShrinkStep(c: Coder, f: nat)
    requires f > 0
    ensures Shrink(c, f) == if c.state >= UPPER * f then Shrink(Coder(c.state / 256, c.rev + [c.state % 256]), f) else c
  {
  }

  lemma {:induction false} ReversedAt(s: seq<byte>, i: nat)
    requires i < |s|
    ensures Reversed(s)[i] == s[|s| - 1 - i]
  {
    if i > 0 {
      ReversedAt(s[..|s| - 1], i - 1);
    }
  }

  class RansEncoder {
    const tab: RansTable
    var state: nat
    var rev: seq<byte>  // the growing buffer, oldest byte first

    ghost function Value(): Coder
      reads this
    {
      Coder(state, rev)
    }

    constructor (tab: RansTable)
      ensures this.tab == tab && Value() == Start()
    {
      this.tab := tab;
      state, rev := RANS_L, [];
    }

    method Encode(sym: nat)
      requires Fair(tab) && sym < MAX_SYMS && InRange(state)
      modifies this
      ensures Value() == EncodeOne(tab, old(Value()), sym) && InRange(state)
    {
      hide Shrink, Sum;
      var freq := tab.freq[sym];
      if freq == 0 {
        return;
      }
      OneSymbol(tab, Value(), sym);
      FrequencyBound(tab, sym);
      var upper := UPPER * freq;
      assert upper < U32;
      while state >= upper
        invariant Shrink(Value(), freq) == old(Shrink(Value(), freq))
        decreases state
      {
        ShrinkStep(Value(), freq);
        rev := rev + [state % 256];
        state := state / 256;
      }
      ShrinkStep(Value(), freq);
      state := (state / freq) * PROB_SCALE + tab.cum[sym] + state % freq;
    }

    /** The final state and the reversed buffer. */
    method Finish() returns (out: seq<byte>)
      requires InRange(state)
      modifies this
      ensures out == Packed(old(Value()))
    {
      ghost var c := Value();
      for i := 0 to 4
        invariant rev == c.rev + LowBytes(c.state, i) && state == Dropped(c.state, i)
      {
        rev := rev + [state % 256];
        state := state / 256;
      }
      var full := rev;
      var len := |full|;
      var a := new byte[len];
      for i := 0 to len
        invariant forall k :: 0 <= k < i ==> a[k] == full[len - 1 - k]
      {
        a[i] := full[len - 1 - i];
      }
      forall k: nat | k < len ensures a[..][k] == Reversed(full)[k] {
        ReversedAt(full, k);
      }
      out := a[..];
      assert out == Reversed(full);
      FourBytes(c);
    }
  }

  function Dropped(x: nat, n: nat): nat { if n == 0 then x else Dropped(x, n - 1) / 256 }

  function LowBytes(x: nat, n: nat): (s: seq<byte>)
    ensures |s| == n
  {
    if n == 0 then [] else LowBytes(x, n - 1) + [Dropped(x, n - 1) % 256]
  }

  /** The finished buffer: the final state with its high byte first, then the bytes from the newest on. */
  function Packed(c: Coder): seq<byte>
  {
    var x := c.state;
    [x / 0x100_0000 % 256, x / 0x1_0000 % 256, x / 256 % 256, x % 256] + Reversed(c.rev)
  }

  lemma FourBytes(c: Coder)
    ensures Reversed(c.rev + LowBytes(c.state, 4)) == Packed(c)
  {
    var x := c.state;
    var b0: byte, b1: byte, b2: byte, b3: byte := x % 256, x / 256 % 256, x / 0x1_0000 % 256, x / 0x100_0000 % 256;
    LowFour(x);
    hide LowBytes;
    ReversedFour(c.rev, b0, b1, b2, b3);
  }

  lemma LowFour(x: nat)
    ensures LowBytes(x, 4) == [x % 256, x / 256 % 256, x / 0x1_0000 % 256, x / 0x100_0000 % 256]
  {
    DroppedFour(x);
    hide Dropped;
    assert LowBytes(x, 0) == [];
    assert LowBytes(x, 1) == [] + [Dropped(x, 0) % 256];
    assert LowBytes(x, 2) == LowBytes(x, 1) + [Dropped(x, 1) % 256];
    assert LowBytes(x, 3) == LowBytes(x, 2) + [Dropped(x, 2) % 256];
  }

  lemma ReversedFour(r: seq<byte>, b0: byte, b1: byte, b2: byte, b3: byte)
    ensures Reversed(r + [b0, b1, b2, b3]) == [b3, b2, b1, b0] + Reversed(r)
  {
    hide Reversed;
    ReversedPush(r, b0);
    ReversedPush(r + [b0], b1);
    ReversedPush(r + [b0] + [b1], b2);
    ReversedPush(r + [b0] + [b1] + [b2], b3);
    assert r + [b0] + [b1] + [b2] + [b3] == r + [b0, b1, b2, b3];
  }

  lemma DroppedFour(x: nat)
    ensures Dropped(x, 0) == x && Dropped(x, 1) == x / 256 && Dropped(x, 2) == x / 0x1_0000 && Dropped(x, 3) == x / 0x100_0000
  {
    assert Dropped(x, 1) == Dropped(x, 0) / 256;
    assert Dropped(x, 2) == Dropped(x, 1) / 256;
    assert Dropped(x, 3) == Dropped(x, 2) / 256;
  }

  // ----- the decoder -----

  /** The first n bytes of the state, missing bytes read as zeros. */
  function Head(data: seq<byte>, n: nat): (r: Puller)
    ensures n <= |data| ==> r.rest == data[n..]
    ensures n > |data| ==> r.rest == []
  {
    if n == 0 then Puller(0, data)
    else
      var d := Head(data, n - 1);
      if d.rest == [] then Puller(d.state * 256 % U32, []) else Puller(d.state * 256 % U32 + d.rest[0], d.rest[1..])
  }

  lemma NoHead(data: seq<byte>)
    ensures Head(data, 0) == Puller(0, data[0..])
  {
  }

  lemma HeadNext(data: seq<byte>, n: nat, state: nat, pos: nat)
    requires pos <= |data| && Head(data, n) == Puller(state, data[pos..])
    ensures Head(data, n + 1) == if pos < |data| then Puller(state * 256 % U32 + data[pos], data[pos + 1..])
                                 else Puller(state * 256 % U32, data[pos..])
  {
  }

  /** The decoder starts where the encoder stopped. */
  lemma HeadOfPacked(c: Coder)
    requires InRange(c.state)
    ensures Head(Packed(c), 4) == Puller(c.state, Reversed(c.rev))
  {
    hide Reversed, Head;
    var x := c.state;
    HeadOfFour(x / 0x100_0000 % 256, x / 0x1_0000 % 256, x / 256 % 256, x % 256, Reversed(c.rev));
    StateDigits(x);
  }

  lemma HeadStep(data: seq<byte>, n: nat)
    requires n < |data| && Head(data, n).state < RANS_L
    ensures Head(data, n + 1) == Puller(Head(data, n).state * 256 + data[n], data[n + 1..])
  {
    assert Head(data, n).rest == data[n..];
  }

  lemma HeadOfFour(b3: byte, b2: byte, b1: byte, b0: byte, rest: seq<byte>)
    requires b3 < 128
    ensures Head([b3, b2, b1, b0] + rest, 4) == Puller(((b3 * 256 + b2) * 256 + b1) * 256 + b0, rest)
  {
    var s := [b3, b2, b1, b0] + rest;
    assert Head(s, 0) == Puller(0, s);
    hide Head;
    HeadStep(s, 0);
    HeadStep(s, 1);
    HeadStep(s, 2);
    HeadStep(s, 3);
    assert s[4..] == rest;
  }

  lemma StateDigits(x: nat)
    requires x < U32
    ensures ((x / 0x100_0000 % 256 * 256 + x / 0x1_0000 % 256) * 256 + x / 256 % 256) * 256 + x % 256 == x
    ensures x < RANS_TOP ==> x / 0x100_0000 % 256 < 128
  {
  }

  class RansDecoder {
    const tab: RansTable
    const data: seq<byte>
    const lookup: array<nat>
    var state: nat
    var pos: nat

    ghost predicate Valid()
      reads this, lookup
    {
      && |tab.freq| == |tab.cum| == MAX_SYMS && lookup.Length == PROB_SCALE && pos <= |data|
      && forall i: nat :: i < PROB_SCALE ==> lookup[i] == SymbolAt(tab, i, MAX_SYMS)
    }

    ghost function Value(): Puller
      reads this
      requires pos <= |data|
    {
      Puller(state, data[pos..])
    }

    constructor (tab: RansTable, data: seq<byte>)
      requires |tab.freq| == |tab.cum| == MAX_SYMS
      ensures Valid() && fresh(lookup) && this.tab == tab && this.data == data && Value() == Head(data, 4)
    {
      this.tab, this.data, pos := tab, data, 0;
      lookup := new nat[PROB_SCALE](_ => 0);
      state := 0;
      new;
      hide SymbolAt, Head;
      BuildLookup();
      ReadState();
    }

    /** The first four bytes, with zeroes behind the end. */
    method ReadState()
      requires state == 0 && pos == 0
      modifies this
      ensures pos <= |data| && Value() == Head(data, 4)
    {
      hide Head;
      NoHead(data);
      var i := 0;
      while i < 4
        invariant i <= 4 && pos <= |data| && Value() == Head(data, i)
      {
        HeadNext(data, i, state, pos);
        state := state * 256 % U32;
        if pos < |data| {
          state := state + data[pos];
          pos := pos + 1;
        }
        i := i + 1;
      }
    }

    /** Marks each symbol's share of the scale; later symbols overwrite earlier ones. */
    method BuildLookup()
      requires |tab.freq| == |tab.cum| == MAX_SYMS && lookup.Length == PROB_SCALE
      requires forall k :: 0 <= k < PROB_SCALE ==> lookup[k] == 0
      modifies lookup
      ensures forall k: nat :: k < PROB_SCALE ==> lookup[k] == SymbolAt(tab, k, MAX_SYMS)
    {
      for s := 0 to MAX_SYMS
        invariant forall k: nat :: k < PROB_SCALE ==> lookup[k] == SymbolAt(tab, k, s)
      {
        MarkShare(s);
      }
    }

    method MarkShare(s: nat)
      requires |tab.freq| == |tab.cum| == MAX_SYMS && lookup.Length == PROB_SCALE && s < MAX_SYMS
      modifies lookup
      ensures forall k: nat :: k < PROB_SCALE ==>
                lookup[k] == if tab.cum[s] <= k < tab.cum[s] + tab.freq[s] then s else old(lookup[k])
    {
      var i := tab.cum[s];
      while i < tab.cum[s] + tab.freq[s] && i < PROB_SCALE
        invariant tab.cum[s] <= i
        invariant forall k: nat :: k < PROB_SCALE ==>
                    lookup[k] == if tab.cum[s] <= k < i && k < tab.cum[s] + tab.freq[s] then s else old(lookup[k])
        decreases PROB_SCALE - i
      {
        lookup[i] := s;
        i := i + 1;
      }
    }

    method Decode() returns (sym: nat)
      requires Valid()
      modifies this
      ensures Valid() && (sym, Value()) == DecodeOne(tab, old(Value()))
    {
      hide SymbolAt;
      var slot := state % PROB_SCALE;
      sym := lookup[slot];
      var freq, cumfreq := tab.freq[sym], tab.cum[sym];
      state := (freq * (state / PROB_SCALE) + slot - cumfreq) % U32;
      ghost var d := Value();
      while state < RANS_L && pos < |data|
        invariant Valid() && Grow(Value()) == Grow(d)
        decreases |data| - pos
      {
        state := state * 256 % U32 + data[pos];
        pos := pos + 1;
      }
    }
  }
}
