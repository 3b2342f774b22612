/** Bit strings, most significant bit first, and their packing into 16-bit little-endian words. */
module BitStrings {
  import opened ErrorCodes

  type byte = x: int | 0 <= x < 256

  function Pow2(n: nat): (r: nat)
    ensures r >= 1
  {
    if n == 0 then 1 else 2 * Pow2(n - 1)
  }

  lemma {:induction false} Pow2Add(a: nat, b: nat)
    ensures Pow2(a + b) == Pow2(a) * Pow2(b)
  {
    if b > 0 {
      Pow2Add(a, b - 1);
      assert Pow2(a + b) == 2 * Pow2(a + (b - 1));
    }
  }

  lemma ZeroPower()
    ensures Pow2(0) == 1
  {
  }

  lemma Pow2Values()
    ensures Pow2(8) == 256 && Pow2(13) == 8192 && Pow2(16) == 65536
  {
    assert Pow2(4) == 16;
    assert Pow2(8) == 256;
    assert Pow2(12) == 4096;
  }

  lemma {:induction false} Pow2Monotone(a: nat, b: nat)
    requires a <= b
    ensures Pow2(a) <= Pow2(b)
    decreases b - a
  {
    if a < b {
      Pow2Monotone(a + 1, b);
    }
  }

  lemma MultipleBound(d: int, m: int)
    requires m >= 0
    ensures d >= 1 ==> d * m >= m
    ensures d <= -1 ==> d * m <= -m
  {
  }

  /** The quotient and remainder that a mixed-radix number stores. */
  lemma DivModUnique(q: int, m: int, r: int)
    requires 0 <= r < m
    ensures (q * m + r) / m == q && (q * m + r) % m == r
  {
    var x := q * m + r;
    assert x == (x / m) * m + x % m;
    MultipleBound(x / m - q, m);
    assert (x / m - q) * m == r - x % m;
  }

  lemma MulLe(a: int, b: int, c: int)
    requires a <= b && c >= 0
    ensures a * c <= b * c
  {
  }

  lemma MulAddLeft(a: int, b: int, c: int)
    ensures (a + b) * c == a * c + b * c
  {
  }

  lemma MulAssoc(a: int, b: int, c: int)
    ensures (a * b) * c == a * (b * c)
  {
  }

  lemma DivLess(a: int, top: int, m: int)
    requires m > 0 && 0 <= a < top * m
    ensures 0 <= a / m < top
  {
    assert a == (a / m) * m + a % m;
    MultipleBound(a / m - top, m);
    MulAddLeft(a / m, -top, m);
    assert (-top) * m == -(top * m);
  }

  // ----- shifts and masks of unsigned numbers -----

  function Shl(v: nat, n: nat): nat { v * Pow2(n) }

  function Quot(a: nat, m: nat): nat
    requires m > 0
  {
    a / m
  }

  function Shr(v: nat, n: nat): nat { Quot(v, Pow2(n)) }

  function Low(v: nat, n: nat): nat { v % Pow2(n) }

  lemma ShlZero(v: nat)
    ensures Shl(v, 0) == v
  {
  }

  lemma ShrLow(v: nat, m: nat, n: nat)
    requires v < Pow2(m + n)
    ensures Shr(v, n) < Pow2(m) && Low(v, n) < Pow2(n)
    ensures v == Shl(Shr(v, n), n) + Low(v, n)
  {
    Pow2Add(m, n);
    DivLess(v, Pow2(m), Pow2(n));
  }

  function Bit(b: bool): nat { if b then 1 else 0 }

  /** The number a bit string denotes. */
  function Val(b: seq<bool>): nat
  {
    if b == [] then 0 else 2 * Val(b[..|b| - 1]) + Bit(b[|b| - 1])
  }

  /** The low n bits of v. */
  function BitsOf(v: nat, n: nat): (b: seq<bool>)
    ensures |b| == n
  {
    if n == 0 then [] else BitsOf(v / 2, n - 1) + [v % 2 == 1]
  }

  lemma {:induction false} ValBound(b: seq<bool>)
    ensures Val(b) < Pow2(|b|)
  {
    if b != [] {
      ValBound(b[..|b| - 1]);
    }
  }

  lemma {:induction false} ValConcat(a: seq<bool>, b: seq<bool>)
    ensures Val(a + b) == Val(a) * Pow2(|b|) + Val(b)
  {
    if b == [] {
      assert a + b == a;
    } else {
      var b' := b[..|b| - 1];
      ValConcat(a, b');
      assert (a + b)[..|a + b| - 1] == a + b';
      assert Pow2(|b|) == 2 * Pow2(|b'|);
      hide Pow2;
      AppendBit(Val(a), Pow2(|b'|), Val(b'), Bit(b[|b| - 1]));
    }
  }

  lemma AppendBit(x: int, p: int, y: int, t: int)
    ensures 2 * (x * p + y) + t == x * (2 * p) + (2 * y + t)
  {
    MulAssoc(x, 2, p);
    MulAssoc(2, x, p);
  }

  lemma ValAppend(b: seq<bool>, t: bool)
    ensures Val(b + [t]) == 2 * Val(b) + Bit(t)
  {
    assert (b + [t])[..|b|] == b;
  }

  lemma PowerTwice(n: nat)
    ensures Pow2(n + 1) == 2 * Pow2(n)
  {
  }

  lemma Halves(v: nat, p: nat)
    requires v < 2 * p
    ensures v / 2 < p && v == 2 * (v / 2) + Bit(v % 2 == 1)
  {
  }

  /** Packing and reading back is the identity on numbers that fit... */
  lemma {:induction false} ValBitsOf(v: nat, n: nat)
    requires v < Pow2(n)
    ensures Val(BitsOf(v, n)) == v
  {
    if n > 0 {
      hide Val, Pow2;
      PowerTwice(n - 1);
      Halves(v, Pow2(n - 1));
      ValBitsOf(v / 2, n - 1);
      ValAppend(BitsOf(v / 2, n - 1), v % 2 == 1);
    }
  }

  /** ... and on bit strings of the given length. */
  lemma {:induction false} BitsOfVal(b: seq<bool>)
    ensures BitsOf(Val(b), |b|) == b
  {
    if b != [] {
      BitsOfVal(b[..|b| - 1]);
    }
  }

  lemma BitsOfJoin(hi: nat, lo: nat, m: nat, n: nat)
    requires hi < Pow2(m) && lo < Pow2(n)
    ensures BitsOf(hi, m) + BitsOf(lo, n) == BitsOf(Shl(hi, n) + lo, m + n)
  {
    hide Val, Pow2, BitsOf;
    var a, b := BitsOf(hi, m), BitsOf(lo, n);
    assert Val(a + b) == hi * Pow2(n) + lo by {
      ValConcat(a, b);
      ValBitsOf(hi, m);
      ValBitsOf(lo, n);
    }
    BitsOfVal(a + b);
  }

  /** A peek of n bits out of a string of at least n bits is a division. */
  lemma ValPrefix(b: seq<bool>, n: nat)
    requires n <= |b|
    ensures Val(b[..n]) == Val(b) / Pow2(|b| - n)
    ensures Val(b[n..]) == Val(b) % Pow2(|b| - n)
  {
    hide Val, Pow2;
    assert b == b[..n] + b[n..];
    ValConcat(b[..n], b[n..]);
    ValBound(b[n..]);
    DivModUnique(Val(b[..n]), Pow2(|b| - n), Val(b[n..]));
  }

  // ----- 16-bit words, low byte first -----

  function WordOf(lo: byte, hi: byte): (w: nat)
    ensures w < 65536
  {
    lo + 256 * hi
  }

  function WordPart(lo: byte, hi: byte): (b: seq<bool>)
    ensures |b| == 16
  {
    BitsOf(WordOf(lo, hi), 16)
  }

  /** The bits of a byte stream read as 16-bit little-endian words; an odd last byte is unreadable. */
  function WordBits(s: seq<byte>): (b: seq<bool>)
    ensures |b| == 16 * (|s| / 2)
  {
    if |s| < 2 then [] else HalfLess(|s|); WordPart(s[0], s[1]) + WordBits(s[2..])
  }

  lemma HalfLess(n: nat)
    requires n >= 2
    ensures (n - 2) / 2 == n / 2 - 1
  {
  }

  lemma {:induction false} WordBitsConcat(a: seq<byte>, b: seq<byte>)
    requires |a| % 2 == 0
    ensures WordBits(a + b) == WordBits(a) + WordBits(b)
  {
    hide WordPart;
    if a == [] {
      assert a + b == b;
    } else {
      WordBitsConcat(a[2..], b);
      assert (a + b)[2..] == a[2..] + b;
    }
  }

  lemma WordBitsAppend(a: seq<byte>, lo: byte, hi: byte)
    requires |a| % 2 == 0
    ensures WordBits(a + [lo, hi]) == WordBits(a) + BitsOf(WordOf(lo, hi), 16)
  {
    WordBitsConcat(a, [lo, hi]);
    assert [lo, hi][2..] == [];
  }

  /** The w-th word of a stream. */
  lemma WordBitsAt(s: seq<byte>, w: nat)
    requires 2 * w + 2 <= |s|
    ensures 16 * w + 16 <= |WordBits(s)|
    ensures WordBits(s)[16 * w..16 * w + 16] == BitsOf(WordOf(s[2 * w], s[2 * w + 1]), 16)
  {
    var a, rest := s[..2 * w], s[2 * w..];
    assert s == a + rest;
    WordBitsConcat(a, rest);
    FirstWord(rest);
    hide *;
    HalfOf(w);
    MiddlePart(WordBits(a), BitsOf(WordOf(s[2 * w], s[2 * w + 1]), 16), WordBits(rest[2..]));
  }

  lemma HalfOf(w: nat)
    ensures (2 * w) / 2 == w
  {
  }

  lemma FirstWord(s: seq<byte>)
    requires |s| >= 2
    ensures WordBits(s) == BitsOf(WordOf(s[0], s[1]), 16) + WordBits(s[2..])
  {
    hide BitsOf, WordOf;
  }

  lemma MiddlePart(x: seq<bool>, y: seq<bool>, z: seq<bool>)
    ensures (x + (y + z))[|x|..|x| + |y|] == y
  {
  }

  // ----- reading from a fixed bit string -----

  /** What a request for n bits at position p yields: a number, or an error past the end. */
  function ReadAt(t: seq<bool>, p: nat, n: nat): (r: int)
    ensures r >= 0 <==> p + n <= |t|
    ensures r >= 0 ==> r < Pow2(n)
    ensures r < 0 ==> r == TRUNCATED
  {
    if p + n <= |t| then ValBound(t[p..p + n]); Val(t[p..p + n]) else TRUNCATED
  }

  /** t holds the bits b at position p. */
  predicate HasBits(t: seq<bool>, p: nat, b: seq<bool>)
  {
    p + |b| <= |t| && t[p..p + |b|] == b
  }

  lemma HasBitsSplit(t: seq<bool>, p: nat, a: seq<bool>, b: seq<bool>)
    ensures HasBits(t, p, a + b) <==> HasBits(t, p, a) && HasBits(t, p + |a|, b)
  {
    if p + |a + b| <= |t| {
      var x, y := t[p..p + |a|], t[p + |a|..p + |a| + |b|];
      assert t[p..p + |a + b|] == x + y;
      assert (x + y)[..|a|] == x && (x + y)[|a|..] == y;
      assert (a + b)[..|a|] == a && (a + b)[|a|..] == b;
    }
  }

  lemma ReadAtBits(t: seq<bool>, p: nat, v: nat, n: nat)
    requires v < Pow2(n) && HasBits(t, p, BitsOf(v, n))
    ensures ReadAt(t, p, n) == v
  {
    ValBitsOf(v, n);
  }
}
