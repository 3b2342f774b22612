/** The running exclusive-or checksum: 16 bits over little-endian byte pairs, with an odd byte carried over. */
module Checksum {
  import opened BitStrings

  const CSUM_INIT: bv32 := 0xA55A

  function Wide(b: byte): bv32 { (b as bv8) as bv32 }

  function Low16(v: bv32): bv32 { v & 0xffff }

  /** Bit 16 marks that the low half of a pair has already been taken in. */
  predicate Half(v: bv32) { v > 0xffff }

  predicate Small(v: bv32) { v < 0x20000 }

  function TakeLow(v: bv32, b: byte): bv32 { v ^ (Wide(b) | 0x10000) }

  function TakeHigh(v: bv32, b: byte): bv32 { v ^ (Wide(b) << 8) }

  function TakePair(v: bv32, lo: byte, hi: byte): bv32 { v ^ (Wide(lo) | (Wide(hi) << 8)) }

  /** One byte. */
  function Step(v: bv32, b: byte): bv32
  {
    if Half(v) then Low16(TakeHigh(v, b)) else TakeLow(v, b)
  }

  /** The checksum state after a text. */
  function Fold(v: bv32, text: seq<byte>): bv32
  {
    if text == [] then v else Step(Fold(v, text[..|text| - 1]), text[|text| - 1])
  }

  /** The checksum of a text. */
  function Checked(text: seq<byte>): bv32 { Low16(Fold(CSUM_INIT, text)) }

  /** Cutting the text anywhere gives the same checksum. */
  lemma {:induction false} FoldConcat(v: bv32, a: seq<byte>, b: seq<byte>)
    ensures Fold(v, a + b) == Fold(Fold(v, a), b)
  {
    hide Step;
    if b == [] {
      assert a + b == a;
    } else {
      assert (a + b)[..|a + b| - 1] == a + b[..|b| - 1];
      FoldConcat(v, a, b[..|b| - 1]);
    }
  }

  // ----- what the checksum is -----

  function Mix(x: bv8, b: byte): bv8 { x ^ (b as bv8) }

  /** The exclusive-or of the bytes at the even positions (phase 1) or the odd ones (phase 0). */
  function Lane(text: seq<byte>, phase: nat): bv8
  {
    if text == [] then 0
    else if |text| % 2 == phase then Mix(Lane(text[..|text| - 1], phase), text[|text| - 1])
    else Lane(text[..|text| - 1], phase)
  }

  function SideBySide(even: bv8, odd: bv8, half: bool): bv32
  {
    (0x5A ^ even) as bv32 | ((0xA5 ^ odd) as bv32 << 8) | if half then 0x10000 else 0
  }

  /** The even bytes over 0x5A, the odd bytes over 0xA5, and the mark of a half-taken pair. */
  lemma {:induction false} FoldIsLanes(text: seq<byte>)
    ensures Fold(CSUM_INIT, text) == SideBySide(Lane(text, 1), Lane(text, 0), |text| % 2 == 1)
  {
    if text == [] {
      NoLanes();
    } else {
      hide Step, SideBySide, Mix;
      var front, b := text[..|text| - 1], text[|text| - 1];
      FoldIsLanes(front);
      var even, odd := Lane(front, 1), Lane(front, 0);
      if |front| % 2 == 1 {
        SideBySideHigh(even, odd, b);
      } else {
        SideBySideLow(even, odd, b);
      }
    }
  }

  lemma NoLanes()
    ensures SideBySide(0, 0, false) == CSUM_INIT
  {
  }

  lemma SideBySideHigh(even: bv8, odd: bv8, b: byte)
    ensures Step(SideBySide(even, odd, true), b) == SideBySide(even, Mix(odd, b), false)
  {
  }

  lemma SideBySideLow(even: bv8, odd: bv8, b: byte)
    ensures Step(SideBySide(even, odd, false), b) == SideBySide(Mix(even, b), odd, true)
  {
  }

  // ----- the update loop -----

  lemma FoldPair(v: bv32, w: bv32, a: seq<byte>, x: byte, y: byte)
    requires Low16(w) == Fold(v, a)
    ensures Low16(TakePair(w, x, y)) == Fold(v, a + [x, y])
  {
    FoldConcat(v, a, [x, y]);
    hide Step;
    FoldTwo(Fold(v, a), x, y);
    PairSteps(w, x, y);
  }

  lemma PairSteps(w: bv32, x: byte, y: byte)
    ensures Low16(TakePair(w, x, y)) == Step(Step(Low16(w), x), y)
  {
  }

  lemma FoldTwo(v: bv32, x: byte, y: byte)
    ensures Fold(v, [x, y]) == Step(Step(v, x), y)
  {
    hide Step;
    assert [x, y][..1] == [x];
    FoldOne(v, x);
  }

  lemma FoldOne(v: bv32, x: byte)
    ensures Fold(v, [x]) == Step(v, x) && Fold(v, []) == v
  {
    hide Step;
    assert [x][..0] == [];
  }

  lemma Begin(v: bv32, x: byte)
    requires Small(v)
    ensures if Half(v) then Low16(TakeHigh(v, x)) == Fold(v, [x]) else Low16(v) == Fold(v, [])
  {
    FoldOne(v, x);
  }

  lemma Finish(v: bv32, w: bv32, a: seq<byte>, x: byte)
    requires Low16(w) == Fold(v, a)
    ensures TakeLow(Low16(w), x) == Fold(v, a + [x])
    ensures Small(Low16(w)) && Small(TakeLow(Low16(w), x))
  {
    FoldConcat(v, a, [x]);
    FoldOne(Fold(v, a), x);
  }

  /** Takes in n bytes, a pair at a time, whatever the earlier pieces were. */
  method Update(value: bv32, p: seq<byte>) returns (v: bv32)
    requires Small(value)
    ensures v == Fold(value, p) && Small(v)
  {
    hide Fold, Step, TakeLow, TakeHigh, TakePair, Low16, Half, Small;
    v := value;
    FoldOne(value, 0);
    if |p| == 0 {
      assert p == [];
      return;
    }
    var i, e := 0, |p| - 1;
    Begin(v, p[0]);
    assert p[..0] == [] && p[..1] == [p[0]];
    if Half(v) {
      v := TakeHigh(v, p[0]);
      i := 1;
    }
    while i < e
      invariant i <= |p| && Low16(v) == Fold(value, p[..i])
    {
      FoldPair(value, v, p[..i], p[i], p[i + 1]);
      assert p[..i] + [p[i], p[i + 1]] == p[..i + 2];
      v := TakePair(v, p[i], p[i + 1]);
      i := i + 2;
    }
    Finish(value, v, p[..i], p[e]);
    v := Low16(v);
    if i == e {
      assert p[..i] + [p[i]] == p;
      v := TakeLow(v, p[i]);
    } else {
      assert p[..i] == p;
    }
  }

  lemma InitSmall()
    ensures Small(CSUM_INIT)
  {
  }
}
