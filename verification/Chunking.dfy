/** Content-defined chunking: the chunker, and chunking through a sliding buffer. */
module Chunking {
  import opened BitStrings
  import opened BitIO

  /** The table of a rolling hash is not interpreted; mask and sizes are the chunker's parameters. */
  datatype Params = Params(gear: byte -> nat, mask: nat, min: nat, max: nat)

  predicate ParamsOk(p: Params) { 1 <= p.max }

  /** How many bits of the hash decide: from 8 to 20. */
  function Bits(bits: int): (b: nat)
    ensures 8 <= b <= 20
  {
    if bits < 8 then 8 else if bits > 20 then 20 else bits
  }

  function DefaultMask(bits: nat): nat { Pow2(bits) - 1 }

  /** The parameters the initialiser derives; zero sizes mean the defaults. */
  function Init(gear: byte -> nat, bits: int, min: nat, max: nat): (p: Params)
    ensures ParamsOk(p)
  {
    var b := Bits(bits);
    PowPositive(b - 2);
    PowPositive(b + 2);
    Params(gear, DefaultMask(b), if min != 0 then min else Pow2(b - 2), if max != 0 then max else Pow2(b + 2))
  }

  lemma PowPositive(n: nat)
    ensures Pow2(n) >= 1
  {
  }

  /** The rolling hash of a text. */
  function GearHash(p: Params, w: seq<byte>): nat
  {
    if w == [] then 0 else Roll(GearHash(p, w[..|w| - 1]), p.gear(w[|w| - 1]))
  }

  /** One byte: a shift and a sum in 32 bits. */
  function Roll(h: nat, g: nat): nat { (2 * h + g) % 0x1_0000_0000 }

  /** The low bits that a mask of all ones selects. */
  function Masked(h: nat, mask: nat): nat { h % (mask + 1) }

  predicate Boundary(p: Params, h: nat) { Masked(h, p.mask) == 0 }

  function Min(a: nat, b: nat): nat { if a < b then a else b }

  /** The first boundary at or after position i, or end. */
  function CutFrom(p: Params, w: seq<byte>, i: nat, end: nat): (n: nat)
    requires i <= end <= |w|
    ensures i <= n <= end && (i < end ==> i < n)
    decreases end - i
  {
    if i == end then end
    else if Boundary(p, GearHash(p, w[..i + 1])) then i + 1
    else CutFrom(p, w, i + 1, end)
  }

  /** The length of the first chunk of a text. */
  function Cut(p: Params, w: seq<byte>): (n: nat)
    requires ParamsOk(p) && w != []
    ensures 1 <= n <= |w| && n <= p.max
  {
    var end := Min(p.max, |w|);
    CutFrom(p, w, Min(p.min, end), end)
  }

  lemma CutOf(p: Params, w: seq<byte>)
    requires ParamsOk(p) && w != []
    ensures var end := Min(p.max, |w|); Cut(p, w) == CutFrom(p, w, Min(p.min, end), end)
  {
    hide CutFrom;
  }

  lemma CutStep(p: Params, data: seq<byte>, start: nat, i: nat, end: nat)
    requires start <= i < end <= |data|
    ensures CutFrom(p, data[start..], i - start, end - start)
            == if Boundary(p, GearHash(p, data[start..i + 1])) then i + 1 - start
               else CutFrom(p, data[start..], i + 1 - start, end - start)
  {
    hide GearHash, Boundary;
    assert data[start..][..i - start + 1] == data[start..i + 1];
  }

  lemma CutEnd(p: Params, w: seq<byte>, end: nat)
    requires end <= |w|
    ensures CutFrom(p, w, end, end) == end
  {
  }

  /** All chunks of a text. */
  function Chunks(p: Params, data: seq<byte>): seq<seq<byte>>
    requires ParamsOk(p)
  {
    if data == [] then [] else [data[..Cut(p, data)]] + Chunks(p, data[Cut(p, data)..])
  }

  function Join(pieces: seq<seq<byte>>): seq<byte>
  {
    if pieces == [] then [] else pieces[0] + Join(pieces[1..])
  }

  /** The chunks partition the text, and none is empty or too long. */
  lemma {:induction false} ChunksJoin(p: Params, data: seq<byte>)
    requires ParamsOk(p)
    ensures Join(Chunks(p, data)) == data
    ensures forall k :: 0 <= k < |Chunks(p, data)| ==> 1 <= |Chunks(p, data)[k]| <= p.max
  {
    if data != [] {
      hide Cut;
      ChunksJoin(p, data[Cut(p, data)..]);
    }
  }

  // ----- what a boundary is -----

  /** The hash at a boundary is a multiple of 2^b. */
  lemma BoundaryIff(gear: byte -> nat, bits: int, min: nat, max: nat, h: nat)
    ensures Boundary(Init(gear, bits, min, max), h) <==> h % Pow2(Bits(bits)) == 0
  {
    hide Pow2;
  }

  /** The default sizes lie a factor of 4 around the 2^b bytes between two boundaries. */
  lemma DefaultSizes(gear: byte -> nat, bits: int)
    ensures var p, b := Init(gear, bits, 0, 0), Bits(bits);
            b < p.min && 4 * p.min == Pow2(b) && p.max == 4 * Pow2(b)
  {
    var b := Bits(bits);
    SixtyFour();
    hide Pow2;
    PowerTwice(b - 2);
    PowerTwice(b - 1);
    PowerTwice(b);
    PowerTwice(b + 1);
    Pow2Monotone(6, b - 2);
  }

  lemma SixtyFour()
    ensures Pow2(6) == 64
  {
  }

  lemma ModPlus(q: nat, m: nat, x: nat)
    requires m > 0
    ensures (q * m + x) % m == x % m
  {
    MulAddLeft(q, x / m, m);
    DivModUnique(q + x / m, m, x % m);
  }

  lemma ModOfMod(a: nat, m: nat, k: nat)
    requires m > 0 && k > 0 && m * k > 0
    ensures (a % (m * k)) % m == a % m
  {
    var q, r := a / (m * k), a % (m * k);
    assert a == (q * k) * m + r by {
      assert a == q * (m * k) + r;
      MulAssoc(q, k, m);
    }
    ModPlus(q * k, m, r);
  }

  lemma TwiceMod(h: nat, g: nat, p: nat)
    requires p > 0
    ensures (2 * h + g) % (2 * p) == (2 * (h % p) + g) % (2 * p)
  {
    var q, r := h / p, h % p;
    assert 2 * h + g == q * (2 * p) + (2 * r + g) by {
      assert h == q * p + r;
      MulAssoc(q, 2, p);
      MulAssoc(2, q, p);
    }
    ModPlus(q, 2 * p, 2 * r + g);
  }

  /** The low bits of the new hash come from the byte and one bit less of the old one. */
  lemma RollLow(h: nat, g: nat, j: nat)
    requires j < 32
    ensures Roll(h, g) % Pow2(j + 1) == (2 * (h % Pow2(j)) + g) % Pow2(j + 1)
  {
    PowerTwice(j);
    Power32(j);
    hide Pow2;
    ModOfMod(2 * h + g, Pow2(j + 1), Pow2(31 - j));
    TwiceMod(h, g, Pow2(j));
  }

  lemma Power32(j: nat)
    requires j < 32
    ensures Pow2(j + 1) * Pow2(31 - j) == 0x1_0000_0000
  {
    Pow2Add(j + 1, 31 - j);
    Pow2Add(16, 16);
    Pow2Values();
  }

  /** What came before the last bytes does not reach the low bits. */
  lemma {:induction false} LastBytes(p: Params, u: seq<byte>, v: seq<byte>)
    requires |v| <= 32
    ensures GearHash(p, u + v) % Pow2(|v|) == GearHash(p, v) % Pow2(|v|)
  {
    hide Roll, Pow2;
    if v == [] {
      ZeroPower();
    } else {
      var n := |v| - 1;
      assert (u + v)[..|u + v| - 1] == u + v[..n];
      LastBytes(p, u, v[..n]);
      RollLow(GearHash(p, u + v[..n]), p.gear(v[n]), n);
      RollLow(GearHash(p, v[..n]), p.gear(v[n]), n);
    }
  }

  /** Texts whose last b bytes are the same end at a boundary alike. */
  lemma BoundaryLocal(gear: byte -> nat, bits: int, min: nat, max: nat, x: seq<byte>, y: seq<byte>)
    requires var b := Bits(bits); |x| >= b && |y| >= b && x[|x| - b..] == y[|y| - b..]
    ensures var p := Init(gear, bits, min, max); Boundary(p, GearHash(p, x)) <==> Boundary(p, GearHash(p, y))
  {
    hide GearHash, Pow2, Boundary, Init;
    var p, b := Init(gear, bits, min, max), Bits(bits);
    var last := x[|x| - b..];
    assert x == x[..|x| - b] + last && y == y[..|y| - b] + last;
    LastBytes(p, x[..|x| - b], last);
    LastBytes(p, y[..|y| - b], last);
    BoundaryIff(gear, bits, min, max, GearHash(p, x));
    BoundaryIff(gear, bits, min, max, GearHash(p, y));
  }

  // ----- where the cuts are -----

  /** A chunk of n bytes ends at the first boundary behind the least size, or at the greatest size, or with the text. */
  ghost predicate ChunkEnd(p: Params, w: seq<byte>, n: nat)
  {
    && 1 <= n <= Min(p.max, |w|)
    && (n < Min(p.max, |w|) ==> p.min < n && Boundary(p, GearHash(p, w[..n])))
    && forall m :: p.min < m < n ==> !Boundary(p, GearHash(p, w[..m]))
  }

  lemma {:induction false} CutFromFirst(p: Params, w: seq<byte>, i: nat, end: nat)
    requires i <= end <= |w|
    ensures var n := CutFrom(p, w, i, end);
            && (n < end ==> i < n && Boundary(p, GearHash(p, w[..n])))
            && forall m :: i < m < n ==> !Boundary(p, GearHash(p, w[..m]))
    decreases end - i
  {
    hide GearHash, Boundary;
    if i < end && !Boundary(p, GearHash(p, w[..i + 1])) {
      CutFromFirst(p, w, i + 1, end);
    }
  }

  /** That says where the cut is. */
  lemma CutIff(p: Params, w: seq<byte>, n: nat)
    requires ParamsOk(p) && w != []
    ensures n == Cut(p, w) <==> ChunkEnd(p, w, n)
  {
    hide CutFrom, GearHash, Boundary;
    var end := Min(p.max, |w|);
    var c := Cut(p, w);
    CutFromFirst(p, w, Min(p.min, end), end);
    assert ChunkEnd(p, w, c);
    assert n < c ==> !ChunkEnd(p, w, n);
    assert c < n ==> !ChunkEnd(p, w, n);
  }

  /** What is left of a text behind its first chunks is cut like a text of its own. */
  lemma {:induction false} RestOfChunks(p: Params, x: seq<byte>, k: nat, v: seq<byte>)
    requires ParamsOk(p) && k <= |Chunks(p, x)| && x == Join(Chunks(p, x)[..k]) + v
    ensures Chunks(p, x)[k..] == Chunks(p, v)
  {
    hide Cut;
    var cs := Chunks(p, x);
    if k == 0 {
      assert x == v;
    } else {
      var n := Cut(p, x);
      assert cs[..k][1..] == cs[1..][..k - 1] && cs[..k][0] == x[..n];
      assert x == x[..n] + (Join(cs[1..][..k - 1]) + v);
      RestOfChunks(p, x[n..], k - 1, v);
    }
  }

  /** Every chunk ends where it should, and every chunk but the last has more than the least size. */
  lemma {:induction false} ChunkEnds(p: Params, data: seq<byte>, k: nat)
    requires ParamsOk(p) && k < |Chunks(p, data)|
    ensures var cs := Chunks(p, data); ChunkEnd(p, Join(cs[k..]), |cs[k]|)
    ensures p.min < p.max && k < |Chunks(p, data)| - 1 ==> p.min < |Chunks(p, data)[k]|
  {
    hide Cut, GearHash, Boundary;
    var cs, n := Chunks(p, data), Cut(p, data);
    if k == 0 {
      ChunksJoin(p, data);
      CutIff(p, data, n);
      assert cs[0..] == cs;
    } else {
      ChunkEnds(p, data[n..], k - 1);
      assert cs[k..] == cs[1..][k - 1..];
    }
  }

  /** Texts that are cut before the same rest are cut alike from there on. */
  lemma CutAlike(p: Params, x: seq<byte>, i: nat, y: seq<byte>, j: nat, rest: seq<byte>)
    requires ParamsOk(p) && i <= |Chunks(p, x)| && x == Join(Chunks(p, x)[..i]) + rest
    requires j <= |Chunks(p, y)| && y == Join(Chunks(p, y)[..j]) + rest
    ensures Chunks(p, x)[i..] == Chunks(p, y)[j..]
  {
    RestOfChunks(p, x, i, rest);
    RestOfChunks(p, y, j, rest);
  }

  /**
    * Two texts come into step again: where a chunk of one ends at a boundary, a chunk of the other ends too, if the last
    * b bytes are the same, the sizes allow it, and there was no boundary before. From there on equal texts are cut alike.
    */
  lemma BackInStep(gear: byte -> nat, bits: int, x: seq<byte>, y: seq<byte>, j: nat)
    requires x != [] && var p, b := Init(gear, bits, 0, 0), Bits(bits);
             var i := Cut(p, x);
             && b <= i < Min(p.max, |x|) && b <= j && p.min < j <= Min(p.max, |y|)
             && x[i - b..i] == y[j - b..j] && x[i..] == y[j..]
             && forall m :: p.min < m < j ==> !Boundary(p, GearHash(p, y[..m]))
    ensures var p := Init(gear, bits, 0, 0); Cut(p, y) == j && Chunks(p, y) == [y[..j]] + Chunks(p, x)[1..]
  {
    hide Init, GearHash, Boundary, Cut;
    var p, b := Init(gear, bits, 0, 0), Bits(bits);
    var i := Cut(p, x);
    CutIff(p, x, i);
    assert x[..i][i - b..] == x[i - b..i] && y[..j][j - b..] == y[j - b..j];
    BoundaryLocal(gear, bits, 0, 0, x[..i], y[..j]);
    CutIff(p, y, j);
  }

  lemma {:induction false} CutFromPrefix(p: Params, w: seq<byte>, m: nat, i: nat, end: nat)
    requires i <= end <= m <= |w|
    ensures CutFrom(p, w[..m], i, end) == CutFrom(p, w, i, end)
    decreases end - i
  {
    hide GearHash, Boundary;
    if i < end {
      assert w[..m][..i + 1] == w[..i + 1];
      CutFromPrefix(p, w, m, i + 1, end);
    }
  }

  /** A buffer with a maximal chunk's worth of bytes cuts where the whole text does. */
  lemma CutInWindow(p: Params, w: seq<byte>, m: nat)
    requires ParamsOk(p) && w != [] && m <= |w| && (m >= p.max || m == |w|)
    ensures w[..m] != [] && Cut(p, w[..m]) == Cut(p, w)
  {
    hide CutFrom;
    var end := Min(p.max, |w|);
    CutFromPrefix(p, w, m, Min(p.min, end), end);
  }

  lemma HashStart(p: Params, data: seq<byte>, start: nat)
    requires start <= |data|
    ensures GearHash(p, data[start..start]) == 0
  {
  }

  lemma HashNext(p: Params, data: seq<byte>, start: nat, i: nat)
    requires start <= i < |data|
    ensures GearHash(p, data[start..i + 1]) == Roll(GearHash(p, data[start..i]), p.gear(data[i]))
  {
    hide Roll;
    assert data[start..i + 1][..i - start] == data[start..i];
  }

  /** The chunker walks over one buffer. */
  class Chunker {
    const p: Params
    var pos: nat

    constructor (gear: byte -> nat, bits: int, min: nat, max: nat)
      ensures p == Init(gear, bits, min, max) && pos == 0
    {
      p := Init(gear, bits, min, max);
      pos := 0;
    }

    /**
      * The next chunk; after the last one an empty chunk at the end. More is reported while data is left, and once more
      * where the last chunk ends with a boundary.
      */
    method Next(data: seq<byte>) returns (more: bool, off: nat, len: nat)
      requires ParamsOk(p)
      modifies this
      ensures if old(pos) >= |data| then !more && off == |data| && len == 0 && pos == old(pos)
              else off == old(pos) && len == Cut(p, data[old(pos)..]) && pos == off + len <= |data|
                   && (more <==> pos < |data| || (p.min < len && Boundary(p, GearHash(p, data[off..off + len]))))
    {
      hide GearHash, Roll, Boundary, CutFrom, Cut;
      if pos >= |data| {
        return false, |data|, 0;
      }
      var start := pos;
      ghost var w := data[start..];
      var room := |data| - start;
      var end := start + if p.max < room then p.max else room;
      var scan := start + if p.min < end - start then p.min else end - start;
      var h: nat := 0;
      HashStart(p, data, start);
      for i := start to scan
        invariant h == GearHash(p, data[start..i]) && pos == start
      {
        HashNext(p, data, start, i);
        h := Roll(h, p.gear(data[i]));
      }
      CutOf(p, w);
      for i := scan to end
        invariant h == GearHash(p, data[start..i]) && Cut(p, w) == CutFrom(p, w, i - start, end - start) && pos == start
        invariant i > scan ==> !Boundary(p, h)
      {
        HashNext(p, data, start, i);
        h := Roll(h, p.gear(data[i]));
        CutStep(p, data, start, i, end);
        if Boundary(p, h) {
          pos := i + 1;
          return true, start, i + 1 - start;
        }
      }
      CutEnd(p, w, end - start);
      pos := end;
      return pos < |data|, start, end - start;
    }
  }

  /** Walking the chunker over a whole text until it reports the end, or an empty chunk, gives all its chunks. */
  method WalkWhole(gear: byte -> nat, bits: int, min: nat, max: nat, data: seq<byte>) returns (pieces: seq<seq<byte>>)
    ensures pieces == Chunks(Init(gear, bits, min, max), data)
  {
    hide Cut, Boundary, GearHash, Chunks;
    var c := new Chunker(gear, bits, min, max);
    ghost var p := c.p;
    pieces := [];
    assert data[0..] == data;
    assert pieces + Chunks(p, data) == Chunks(p, data);
    var more := true;
    while more
      invariant c.pos <= |data| && c.p == p && Chunks(p, data) == pieces + Chunks(p, data[c.pos..])
      invariant !more ==> c.pos == |data|
      decreases |data| - c.pos, more
    {
      ghost var at := c.pos;
      var off, len;
      more, off, len := c.Next(data);
      if len == 0 {
        break;
      }
      ChunksStep(p, data, at);
      OneMorePiece(pieces, data[off..off + len], Chunks(p, data[c.pos..]));
      pieces := pieces + [data[off..off + len]];
    }
    assert data[c.pos..] == [];
    NoChunks(p, pieces);
  }

  lemma OneMorePiece(a: seq<seq<byte>>, b: seq<byte>, c: seq<seq<byte>>)
    ensures a + ([b] + c) == a + [b] + c
  {
  }

  lemma ChunksStep(p: Params, data: seq<byte>, at: nat)
    requires ParamsOk(p) && at < |data|
    ensures var n := Cut(p, data[at..]);
            at + n <= |data| && Chunks(p, data[at..]) == [data[at..at + n]] + Chunks(p, data[at + n..])
  {
    hide Cut;
    var w := data[at..];
    var n := Cut(p, w);
    assert w[..n] == data[at..at + n] && w[n..] == data[at + n..];
  }

  /** The length of the first chunk of a buffer. */
  method ChunkLength(buffer: seq<byte>, gear: byte -> nat, bits: int) returns (length: nat)
    requires buffer != []
    ensures length == Cut(Init(gear, bits, 0, 0), buffer)
  {
    var chunker := new Chunker(gear, bits, 0, 0);
    assert buffer[0..] == buffer;
    var _, _, n := chunker.Next(buffer);
    length := n;
  }

  /** Cutting a full or final buffer cuts the stream. */
  lemma BufferStep(p: Params, data: seq<byte>, from: nat, at: nat, end: nat, pieces: seq<seq<byte>>)
    requires ParamsOk(p) && from <= at < end <= |data| && (end - at >= p.max || end == |data|)
    requires Chunks(p, data[from..]) == pieces + Chunks(p, data[at..])
    ensures var n := Cut(p, data[at..end]);
            at + n <= end && Chunks(p, data[from..]) == pieces + [data[at..end][..n]] + Chunks(p, data[at + n..])
  {
    hide Cut, Chunks;
    var w := data[at..];
    assert data[at..end] == w[..end - at];
    CutInWindow(p, w, end - at);
    ChunksStep(p, data, at);
    var n := Cut(p, data[at..end]);
    assert data[at..end][..n] == data[at..at + n];
  }

  /**
    * Chunking a stream through a buffer of one maximal chunk: refilled before every cut, whatever the reads return,
    * it finds the same boundaries.
    */
  method ChunkStream(source: ByteSource, gear: byte -> nat, bits: int) returns (pieces: seq<seq<byte>>)
    requires source.pos <= |source.data|
    modifies source
    ensures pieces == Chunks(Init(gear, bits, 0, 0), source.data[old(source.pos)..])
  {
    hide Cut, Chunks, Init;
    ghost var p, from := Init(gear, bits, 0, 0), source.pos;
    var maxChunk := Init(gear, bits, 0, 0).max;
    pieces := [];
    var pending: seq<byte> := [];
    ghost var at := from;
    while true
      invariant from <= at <= source.pos <= |source.data| && pending == source.data[at..source.pos] && |pending| < maxChunk
      invariant Chunks(p, source.data[from..]) == pieces + Chunks(p, source.data[at..])
      decreases |source.data| - at, |source.data| - source.pos
    {
      var more := source.Read(maxChunk - |pending|);
      pending := pending + more;
      assert pending == source.data[at..source.pos];
      if |pending| == 0 {
        assert source.data[at..] == [];
        NoChunks(p, pieces);
        return;
      }
      if |pending| == maxChunk || |more| == 0 {
        BufferStep(p, source.data, from, at, source.pos, pieces);
        var length := ChunkLength(pending, gear, bits);
        pieces := pieces + [pending[..length]];
        pending := pending[length..];
        at := at + length;
      }
    }
  }

  lemma NoChunks(p: Params, pieces: seq<seq<byte>>)
    requires ParamsOk(p)
    ensures pieces + Chunks(p, []) == pieces
  {
  }

  const CHUNK_MAX := 16384

  lemma ArchiveBuffer(gear: byte -> nat)
    ensures Init(gear, 12, 0, 0).max == CHUNK_MAX
  {
    Pow2Add(8, 6);
    Pow2Values();
    assert Pow2(6) == 64;
  }

  /** The archive writer's walk: a 16 KiB buffer is loaded afresh at every chunk start. */
  method ChunkFile(data: seq<byte>, gear: byte -> nat) returns (pieces: seq<seq<byte>>)
    ensures pieces == Chunks(Init(gear, 12, 0, 0), data)
  {
    hide Cut, Chunks, Init;
    ghost var p := Init(gear, 12, 0, 0);
    ArchiveBuffer(gear);
    pieces := [];
    var pos := 0;
    assert data[0..] == data;
    assert pieces + Chunks(p, data) == Chunks(p, data);
    while pos < |data|
      invariant pos <= |data| && Chunks(p, data[0..]) == pieces + Chunks(p, data[pos..])
      decreases |data| - pos
    {
      var n := |data| - pos;
      if n > CHUNK_MAX {
        n := CHUNK_MAX;
      }
      var buffer := data[pos..pos + n];
      BufferStep(p, data, 0, pos, pos + n, pieces);
      var len := ChunkLength(buffer, gear, 12);
      pieces := pieces + [buffer[..len]];
      pos := pos + len;
    }
    assert data[pos..] == [];
    NoChunks(p, pieces);
  }
}
