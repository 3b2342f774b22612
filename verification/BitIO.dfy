/** The compressor's bit writer and the decompressor's bit reader, over buffered callbacks. */
module BitIO {
  import opened BitStrings
  import opened ErrorCodes

  /** `a | b` where a has its low k bits clear and b fits in them. */
  function OrDisjoint(a: nat, b: nat, k: nat): nat
    requires Low(a, k) == 0 && b < Pow2(k)
  {
    a + b
  }

  /** A 16-bit word whose top bits are p and whose other bits are clear. */
  ghost predicate Holds(word: nat, p: seq<bool>)
  {
    |p| <= 16 && word == Shl(Val(p), 16 - |p|)
  }

  lemma HoldsFacts(word: nat, p: seq<bool>)
    requires Holds(word, p)
    ensures word < 65536 && Low(word, 16 - |p|) == 0
    ensures |p| == 16 ==> BitsOf(word, 16) == p
  {
    hide Pow2, Val, BitsOf;
    ValBound(p);
    Pow2Add(|p|, 16 - |p|);
    Pow2Values();
    ZeroPower();
    MulLe(Val(p) + 1, Pow2(|p|), Pow2(16 - |p|));
    MulAddLeft(Val(p), 1, Pow2(16 - |p|));
    DivModUnique(Val(p), Pow2(16 - |p|), 0);
    BitsOfVal(p);
  }

  lemma HoldsNothing()
    ensures Holds(0, [])
  {
  }

  lemma PutArithmetic(v: int, N: int, S: int, val: int)
    requires 0 <= val < N && S > 0
    ensures val * S < N * S
    ensures v * (N * S) + val * S == (v * N + val) * S
  {
    MulLe(val + 1, N, S);
    MulAddLeft(val, 1, S);
    MulAddLeft(v * N, val, S);
    MulAssoc(v, N, S);
  }

  /** Placing n more bits below the bits already held: the shifted value fits, and the word holds both. */
  lemma HoldsPut(word: nat, p: seq<bool>, val: nat, n: nat)
    requires Holds(word, p) && |p| + n <= 16 && val < Pow2(n)
    ensures Low(word, 16 - |p|) == 0 && Shl(val, 16 - |p| - n) < Pow2(16 - |p|)
    ensures Holds(word + Shl(val, 16 - |p| - n), p + BitsOf(val, n))
  {
    hide Pow2, Val, BitsOf;
    HoldsFacts(word, p);
    Pow2Add(n, 16 - |p| - n);
    PutArithmetic(Val(p), Pow2(n), Pow2(16 - |p| - n), val);
    assert Val(p + BitsOf(val, n)) == Val(p) * Pow2(n) + val by {
      ValConcat(p, BitsOf(val, n));
      ValBitsOf(val, n);
    }
  }

  lemma KeepLowArithmetic(val: int, m: int, s: int)
    requires m > 0 && s > 0 && m * s == 65536 && val >= 0
    ensures (val * s) % 65536 == (val % m) * s
  {
    var q, r := val / m, val % m;
    assert val == q * m + r;
    MulAddLeft(q * m, r, s);
    MulAssoc(q, m, s);
    MulLe(r + 1, m, s);
    MulAddLeft(r, 1, s);
    MulLe(0, r, s);
    DivModUnique(q, 65536, r * s);
  }

  /** The truncating left shift keeps exactly the low bits, at the top of the word. */
  lemma HoldsLow(val: nat, n: nat)
    requires n <= 16
    ensures Holds(Shl(val, 16 - n) % 65536, BitsOf(Low(val, n), n))
  {
    Pow2Add(n, 16 - n);
    Pow2Values();
    KeepLowArithmetic(val, Pow2(n), Pow2(16 - n));
    ValBitsOf(val % Pow2(n), n);
  }

  /** A value that does not fit: its high part completes the word, its low part starts the next one. */
  lemma HoldsAcross(word: nat, p: seq<bool>, val: nat, second: nat)
    requires |p| <= 16 && Holds(word, p) && second <= 16 && val < Pow2(16 - |p| + second)
    ensures var hi, lo := Shr(val, second), Low(val, second);
            && hi < Pow2(16 - |p|) && Low(word, 16 - |p|) == 0
            && Holds(word + hi, p + BitsOf(hi, 16 - |p|))
            && Holds(Shl(val, 16 - second) % 65536, BitsOf(lo, second))
            && BitsOf(val, 16 - |p| + second) == BitsOf(hi, 16 - |p|) + BitsOf(lo, second)
  {
    hide *;
    var hi := Shr(val, second);
    ShrLow(val, 16 - |p|, second);
    BitsOfJoin(hi, Low(val, second), 16 - |p|, second);
    HoldsPut(word, p, hi, 16 - |p|);
    ShlZero(hi);
    HoldsLow(val, second);
  }

  lemma WordDigits(w: nat)
    requires w < 65536
    ensures w / 256 < 256 && WordOf(w % 256, w / 256) == w
  {
  }

  /** Bits collected into 16-bit words; full words go to a buffer, full buffers to the write callback. */
  class BitWriter {
    const buf: array<byte>
    var pos: nat
    var word: nat
    var bitsLeft: nat
    var sink: seq<byte>  // all bytes the write callback has received
    ghost var pending: seq<bool>  // the bits in word

    ghost predicate BufferValid()
      reads this
    {
      && buf.Length % 2 == 0 && 2 <= buf.Length
      && pos <= buf.Length && pos % 2 == 0 && |sink| % 2 == 0
    }

    ghost predicate Valid()
      reads this
    {
      && BufferValid()
      && 1 <= bitsLeft <= 16 && |pending| == 16 - bitsLeft
      && Holds(word, pending)
    }

    /** The bits of all full words. */
    ghost function Words(): seq<bool>
      reads this, buf
      requires BufferValid()
    {
      WordBits(sink + buf[..pos])
    }

    /** Every bit put so far. */
    ghost function Stream(): seq<bool>
      reads this, buf
      requires BufferValid()
    {
      Words() + pending
    }

    constructor (capacity: nat)
      requires capacity % 2 == 0 && 2 <= capacity
      ensures Valid() && fresh(buf) && buf.Length == capacity
      ensures Stream() == [] && sink == []
    {
      buf := new byte[capacity](_ => 0);
      pos, word, bitsLeft, sink, pending := 0, 0, 16, [], [];
    }

    method FlushBuf()
      requires BufferValid()
      modifies this`pos, this`sink
      ensures BufferValid() && pos == 0
      ensures sink == old(sink + buf[..pos])
    {
      if pos > 0 {
        sink := sink + buf[..pos];
        pos := 0;
      }
      assert old(pos) == 0 ==> old(sink + buf[..pos]) == old(sink);
    }

    method EmitWord(w: nat)
      requires BufferValid() && w < 65536
      modifies this`pos, this`sink, buf
      ensures BufferValid()
      ensures Words() == old(Words()) + BitsOf(w, 16)
    {
      hide WordBits, BitsOf, WordOf;
      if pos + 2 > buf.Length {
        FlushBuf();
        assert sink + buf[..pos] == sink;
      }
      ghost var before := sink + buf[..pos];
      assert old(Words()) == WordBits(before);
      WordDigits(w);
      var lo: byte, hi: byte := w % 256, w / 256;
      buf[pos], buf[pos + 1] := lo, hi;
      pos := pos + 2;
      assert sink + buf[..pos] == before + [lo, hi];
      WordBitsAppend(before, lo, hi);
    }

    method Put(val: nat, nbits: nat)
      requires Valid() && nbits <= 16 && val < Pow2(nbits)
      modifies this, buf
      ensures Valid()
      ensures Stream() == old(Stream()) + BitsOf(val, nbits)
    {
      hide Shl, Shr, Low, Pow2, Val, BitsOf, WordBits, Holds;
      var left := bitsLeft;
      if nbits <= left {
        HoldsPut(word, pending, val, nbits);
        word := OrDisjoint(word, Shl(val, left - nbits), left);
        bitsLeft := left - nbits;
        pending := pending + BitsOf(val, nbits);
        if bitsLeft == 0 {
          HoldsFacts(word, pending);
          EmitWord(word);
          word, bitsLeft, pending := 0, 16, [];
          HoldsNothing();
        }
      } else {
        var first, second := left, nbits - left;
        HoldsAcross(word, pending, val, second);
        pending := pending + BitsOf(Shr(val, second), first);
        word := OrDisjoint(word, Shr(val, second), left);
        HoldsFacts(word, pending);
        EmitWord(word);
        word := Shl(val, 16 - second) % 65536;
        bitsLeft := 16 - second;
        pending := BitsOf(Low(val, second), second);
      }
    }

    /** Zero-fills the last word and hands everything to the write callback. */
    method Finish()
      requires Valid()
      modifies this, buf
      ensures |sink| % 2 == 0
      ensures WordBits(sink) == old(Stream()) + BitsOf(0, if old(bitsLeft) < 16 then old(bitsLeft) else 0)
    {
      if bitsLeft < 16 {
        HoldsPut(word, pending, 0, bitsLeft);
        HoldsFacts(word, pending + BitsOf(0, bitsLeft));
        EmitWord(word);
        pending := pending + BitsOf(0, bitsLeft);
      }
      FlushBuf();
    }
  }

  /** The read callback: hands out its bytes in pieces of any size it likes, and 0 bytes only at the end. */
  class ByteSource {
    const data: seq<byte>
    var pos: nat

    constructor (data: seq<byte>)
      ensures this.data == data && pos == 0
    {
      this.data := data;
      pos := 0;
    }

    method Read(max: nat) returns (piece: seq<byte>)
      requires pos <= |data| && 0 < max
      modifies this
      ensures old(pos) <= pos <= |data| && piece == data[old(pos)..pos]
      ensures |piece| <= max && (|piece| == 0 <==> old(pos) == |data|)
    {
      var n: nat :| n <= max && n <= |data| - pos && (n == 0 <==> pos == |data|);
      piece := data[pos..pos + n];
      pos := pos + n;
    }
  }

  lemma PeekFromAccumulator(t: seq<bool>, p: nat, have: nat, n: nat, acc: nat)
    requires n <= have && p + have <= |t|
    requires Low(acc, have) == Val(t[p..p + have])
    ensures Low(Shr(acc, have - n), n) == Val(t[p..p + n])
    ensures Low(acc, have - n) == Val(t[p + n..p + have])
  {
    var b := t[p..p + have];
    assert b[..n] == t[p..p + n] && b[n..] == t[p + n..p + have];
    ValPrefix(b, n);
    ValBound(b[..n]);
    Pow2Add(n, have - n);
    ShrLowMod(acc, Pow2(n), Pow2(have - n));
  }

  lemma ShrLowMod(a: int, N: int, S: int)
    requires a >= 0 && N > 0 && S > 0 && N * S > 0
    ensures (a / S) % N == (a % (N * S)) / S
    ensures a % S == (a % (N * S)) % S
  {
    var m := N * S;
    DivLess(a % m, N, S);
    TwoDigits(a, a / m, a % m / S, a % m % S, N, S);
  }

  lemma TwoDigits(a: int, q: int, u: int, v: int, N: int, S: int)
    requires 0 <= u < N && 0 <= v < S && a == q * (N * S) + (u * S + v)
    ensures (a / S) % N == u && a % S == v
  {
    RegroupDigits(q, N, S, u, v);
    var x := q * N + u;
    assert a == x * S + v;
    DivModUnique(x, S, v);
    DivModUnique(q, N, u);
  }

  lemma RegroupDigits(q: int, N: int, S: int, u: int, v: int)
    ensures q * (N * S) + (u * S + v) == (q * N + u) * S + v
  {
    MulAssoc(q, N, S);
    MulAddLeft(q * N, u, S);
  }

  /** Appending a 16-bit word to the accumulator, whose oldest bits fall off at 32. */
  lemma FeedAccumulator(t: seq<bool>, p: nat, have: nat, acc: nat, w: nat)
    requires have <= 15 && p + have + 16 <= |t| && w < 65536
    requires Low(acc, have) == Val(t[p..p + have])
    requires t[p + have..p + have + 16] == BitsOf(w, 16)
    ensures var acc' := Shl(acc, 16) % 0x1_0000_0000 + w;
            acc' < 0x1_0000_0000 && Low(acc', have + 16) == Val(t[p..p + have + 16])
  {
    hide Pow2, Val, BitsOf;
    AppendedWord(t, p, have, w);
    Pow2Values();
    WordPowers(have);
    FeedArithmetic(acc, Pow2(have), Pow2(16 - have), w, Val(t[p..p + have]));
  }

  lemma AppendedWord(t: seq<bool>, p: nat, have: nat, w: nat)
    requires p + have + 16 <= |t| && w < 65536 && t[p + have..p + have + 16] == BitsOf(w, 16)
    ensures Val(t[p..p + have + 16]) == Val(t[p..p + have]) * 65536 + w
  {
    hide Val, BitsOf, Pow2;
    var b := t[p..p + have];
    assert t[p..p + have + 16] == b + BitsOf(w, 16);
    Pow2Values();
    ValConcat(b, BitsOf(w, 16));
    ValBitsOf(w, 16);
  }

  lemma WordPowers(have: nat)
    requires have <= 16
    ensures Pow2(have) * Pow2(16 - have) == 65536 && Pow2(have + 16) == 65536 * Pow2(have)
  {
    hide Pow2;
    Pow2Values();
    Pow2Add(16 - have, have);
    Pow2Add(16, have);
  }

  lemma FeedArithmetic(acc: int, M: int, K: int, w: int, v: int)
    requires acc >= 0 && M > 0 && K > 0 && M * K == 65536 && 0 <= w < 65536 && v == acc % M
    ensures var x := (acc * 65536) % 0x1_0000_0000 + w;
            x < 0x1_0000_0000 && x % (65536 * M) == v * 65536 + w
  {
    var q := acc / 65536;
    var r := acc % 65536;
    assert acc * 65536 == q * 0x1_0000_0000 + r * 65536;
    DivModUnique(q, 0x1_0000_0000, r * 65536);
    ShrLowMod(acc, K, M);
    assert r % M == v by { assert K * M == 65536; }
    var u := r / M;
    assert r == u * M + v;
    MulAddLeft(u * M, v, 65536);
    MulAssoc(u, M, 65536);
    assert 0 <= v < M;
    DivModUnique(u, 65536 * M, v * 65536 + w);
  }

  lemma Regroup<T>(x: seq<T>, y: seq<T>, z: seq<T>)
    ensures x + y + z == x + (y + z)
  {
  }

  /** The decompressor's bit reader. */
  class BitReader {
    const src: ByteSource
    const buffer: array<byte>
    var consumed: nat
    var bits: nat      // accumulator, 32 bits wide
    var haveBits: nat
    var head: nat
    var tail: nat
    var err: int
    ghost var words: nat  // words moved into the accumulator so far

    /** The whole stream as bits. */
    ghost function Text(): seq<bool>
      reads this
    {
      WordBits(src.data)
    }

    ghost predicate Valid()
      reads this, src, buffer
    {
      && buffer.Length == 4096 && head <= tail <= 4096 && src.pos <= |src.data|
      && haveBits <= 31 && consumed + haveBits == 16 * words && 2 * words <= |src.data|
      && buffer[head..tail] + src.data[src.pos..] == src.data[2 * words..]
      && bits < 0x1_0000_0000
      && Low(bits, haveBits) == Val(Text()[consumed..consumed + haveBits])
      && (err == 0 || err == TRUNCATED)
    }

    constructor (src: ByteSource)
      requires src.pos == 0
      ensures Valid() && this.src == src && fresh(buffer) && consumed == 0 && err == 0
    {
      this.src := src;
      buffer := new byte[4096](_ => 0);
      consumed, bits, haveBits, head, tail, err, words := 0, 0, 0, 0, 0, 0, 0;
    }

    method Skip(n: nat)
      requires Valid() && n <= haveBits
      modifies this`haveBits, this`consumed
      ensures Valid() && consumed == old(consumed) + n
    {
      hide Low, Shr, Val, WordBits, BitsOf, Pow2;
      PeekFromAccumulator(Text(), consumed, haveBits, n, bits);
      haveBits := haveBits - n;
      consumed := consumed + n;
    }

    /** Moves the next buffered byte pair into the accumulator. */
    method TakeWord()
      requires buffer.Length == 4096 && head + 2 <= tail <= 4096 && src.pos <= |src.data|
      requires haveBits <= 15 && consumed + haveBits == 16 * words && 2 * words <= |src.data|
      requires buffer[head..tail] + src.data[src.pos..] == src.data[2 * words..]
      requires bits < 0x1_0000_0000 && (err == 0 || err == TRUNCATED)
      requires Low(bits, haveBits) == Val(Text()[consumed..consumed + haveBits])
      modifies this`bits, this`haveBits, this`head, this`words
      ensures Valid() && haveBits == old(haveBits) + 16
    {
      hide Shl, Low, Val, BitsOf, WordBits, Pow2;
      ghost var got := buffer[head..tail];
      PairAt(got, src.data[src.pos..], src.data, 2 * words);
      WordBitsAt(src.data, words);
      FeedAccumulator(Text(), consumed, haveBits, bits, WordOf(got[0], got[1]));
      assert buffer[head + 2..tail] == got[2..];
      bits := Shl(bits, 16) % 0x1_0000_0000 + WordOf(buffer[head], buffer[head + 1]);
      head := head + 2;
      haveBits := haveBits + 16;
      words := words + 1;
    }

    /** Reads until a byte pair is buffered, keeping an odd byte at the front; false at the end of the stream. */
    method Refill() returns (more: bool)
      requires buffer.Length == 4096 && head <= tail <= 4096 && src.pos <= |src.data|
      requires 2 * words <= |src.data| && buffer[head..tail] + src.data[src.pos..] == src.data[2 * words..]
      modifies this`head, this`tail, src, buffer
      ensures head <= tail <= 4096 && src.pos <= |src.data|
      ensures buffer[head..tail] + src.data[src.pos..] == src.data[2 * words..]
      ensures if more then head + 2 <= tail else |src.data| <= 2 * words + 1
    {
      while tail - head < 2
        invariant head <= tail <= 4096 && src.pos <= |src.data|
        invariant buffer[head..tail] + src.data[src.pos..] == src.data[2 * words..]
        decreases |src.data| - src.pos
      {
        var have := tail - head;
        KeepOdd();
        ghost var kept, rest := buffer[..have], src.data[src.pos..];
        var piece := src.Read(4096 - have);
        if |piece| == 0 {
          assert |src.data[2 * words..]| == have <= 1;
          return false;
        }
        Append(have, piece);
        assert piece + src.data[src.pos..] == rest;
        Regroup(kept, piece, src.data[src.pos..]);
      }
      return true;
    }

    /** Moves an odd byte to the front. */
    method KeepOdd()
      requires buffer.Length == 4096 && head <= tail <= 4096 && tail - head < 2
      modifies this`head, this`tail, buffer
      ensures head == 0 && tail == old(tail) - old(head) && buffer[..tail] == old(buffer[head..tail])
    {
      var have := tail - head;
      if have > 0 && head > 0 {
        buffer[0] := buffer[head];
      }
      head, tail := 0, have;
    }

    method Append(have: nat, piece: seq<byte>)
      requires buffer.Length == 4096 && have + |piece| <= 4096
      modifies this`tail, buffer
      ensures tail == have + |piece| && buffer[..tail] == old(buffer[..have]) + piece
    {
      forall k | 0 <= k < |piece| {
        buffer[have + k] := piece[k];
      }
      tail := have + |piece|;
    }

    /** At the end of the stream every readable word has been moved. */
    lemma AllMoved()
      requires 2 * words <= |src.data| <= 2 * words + 1
      ensures |Text()| == 16 * words
    {
      hide WordBits;
    }

    lemma TextLength()
      requires 2 * words <= |src.data|
      ensures 16 * words <= |Text()|
    {
      hide WordBits;
    }

    /** The accumulator holds the next bits of the text. */
    lemma PeekIs(n: nat)
      requires Valid() && n <= haveBits
      ensures Low(Shr(bits, haveBits - n), n) == ReadAt(Text(), consumed, n)
    {
      hide Low, Shr, Val, WordBits, BitsOf, Pow2;
      TextLength();
      PeekFromAccumulator(Text(), consumed, haveBits, n, bits);
    }

    /** Makes n bits available unless the stream ends first; the error sticks. */
    method Feed(n: nat) returns (r: int)
      requires Valid() && n <= 16
      modifies this, src, buffer
      ensures Valid() && consumed == old(consumed)
      ensures old(err) != 0 ==> r == old(err)
      ensures old(err) == 0 ==> r == if consumed + n <= |Text()| then 0 else TRUNCATED
      ensures r == err && (r == 0 ==> n <= haveBits)
    {
      hide Low, Val, WordBits, BitsOf, Pow2;
      if err != 0 {
        return err;
      }
      TextLength();
      if haveBits < n {
        var more := Refill();
        if !more {
          AllMoved();
          err := TRUNCATED;
          return err;
        }
        TakeWord();
      }
      return 0;
    }

    lemma InText()
      requires Valid()
      ensures (err == 0 || err == TRUNCATED) && consumed <= |Text()|
    {
      hide Low, Val, WordBits, Pow2;
      TextLength();
    }

    /** The next n bits as a number, without consuming them. */
    method Peek(n: nat) returns (r: int)
      requires Valid() && n <= 16
      modifies this, src, buffer
      ensures Valid() && consumed == old(consumed)
      ensures r == if old(err) != 0 then old(err) else ReadAt(Text(), consumed, n)
      ensures if r < 0 then err == r else err == 0 && n <= haveBits
    {
      hide Low, Shr, ReadAt, WordBits, BitReader.Valid;
      InText();
      r := Feed(n);
      if r < 0 {
        ReadPast(Text(), consumed, n);
        return;
      }
      PeekIs(n);
      r := Low(Shr(bits, haveBits - n), n);
    }

    /** The next n bits as a number, consumed unless the stream has ended. */
    method Get(n: nat) returns (r: int)
      requires Valid() && n <= 16
      modifies this, src, buffer
      ensures Valid() && consumed == old(consumed) + if r >= 0 then n else 0
      ensures r == if old(err) != 0 then old(err) else ReadAt(Text(), old(consumed), n)
      ensures if r < 0 then err == r else err == 0
    {
      r := Peek(n);
      if r >= 0 {
        Skip(n);
      }
    }
  }

  lemma ReadPast(t: seq<bool>, p: nat, n: nat)
    ensures p + n > |t| ==> ReadAt(t, p, n) == TRUNCATED
  {
    hide Val;
  }

  lemma PairAt(got: seq<byte>, rest: seq<byte>, data: seq<byte>, at: nat)
    requires 2 <= |got| && at <= |data| && got + rest == data[at..]
    ensures at + 2 <= |data| && data[at] == got[0] && data[at + 1] == got[1]
    ensures got[2..] + rest == data[at + 2..]
  {
    assert (got + rest)[0] == got[0] && (got + rest)[1] == got[1];
    assert got[2..] + rest == (got + rest)[2..];
  }
}
