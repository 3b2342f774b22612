/** The LZ4 block codec: a single-probe match table, and the end-of-block conditions of the LZ4 block format. */
module Lz4 {
  import opened BitStrings
  import opened Options
  import opened LzCodes

  const MIN_MATCH := 4
  const HASH_SIZE := 0x1_0000
  const FACTOR := 2654435761
  const U32_MAX := 0xFFFF_FFFF
  const SIZE_MAX := 0xFFFF_FFFF_FFFF_FFFF

  // ----- the format -----

  /** Literals followed by a match. */
  datatype Sequence = Sequence(lits: seq<byte>, offset: nat, len: nat)

  ghost predicate SequenceOk(q: Sequence)
  {
    1 <= q.offset <= 65535 && MIN_MATCH <= q.len && q.len <= SIZE_MAX && |q.lits| <= SIZE_MAX
  }

  function Capped(n: nat): nat { if n < 15 then n else 15 }

  /** A length in bytes of 255 and one last smaller byte. */
  function LengthBytes(n: nat): (b: seq<byte>)
    ensures |b| == n / 255 + 1
  {
    if n >= 255 then [255] + LengthBytes(n - 255) else [n]
  }

  /** What follows a length nibble. */
  function Extension(n: nat): (b: seq<byte>)
    ensures |b| <= n / 255 + 1 && (n <= 14 ==> b == [])
  {
    if n >= 15 then LengthBytes(n - 15) else []
  }

  function Head(lits: nat, matched: nat): byte { Capped(lits) * 16 + Capped(matched) }

  function SequenceBytes(q: Sequence): seq<byte>
    requires SequenceOk(q)
  {
    [Head(|q.lits|, q.len - MIN_MATCH)] + (Extension(|q.lits|) + (q.lits +
      ([q.offset % 256, q.offset / 256] + Extension(q.len - MIN_MATCH))))
  }

  function LastBytes(lits: seq<byte>): seq<byte>
  {
    [Head(|lits|, 0)] + (Extension(|lits|) + lits)
  }

  ghost predicate SequencesOk(qs: seq<Sequence>) { forall k :: 0 <= k < |qs| ==> SequenceOk(qs[k]) }

  function SequencesBytes(qs: seq<Sequence>): seq<byte>
    requires SequencesOk(qs)
  {
    if qs == [] then [] else SequencesBytes(qs[..|qs| - 1]) + SequenceBytes(qs[|qs| - 1])
  }

  /** Matches reach back into what is there. */
  ghost predicate Replays(qs: seq<Sequence>)
    decreases |qs|, 0
  {
    qs == [] || (Replays(qs[..|qs| - 1]) &&
                 1 <= qs[|qs| - 1].offset <= |Replayed(qs[..|qs| - 1])| + |qs[|qs| - 1].lits|)
  }

  function Replayed(qs: seq<Sequence>): seq<byte>
    requires Replays(qs)
    decreases |qs|, 1
  {
    if qs == [] then []
    else
      var q := qs[|qs| - 1];
      Copy(Replayed(qs[..|qs| - 1]) + q.lits, q.offset, q.len)
  }

  // ----- what a block means -----

  /** More length bytes, up to the first that is not 255. */
  function ReadExtension(s: seq<byte>, n: nat): (r: Parse<nat>)
    ensures r.Got? ==> r.pos <= |s|
  {
    if s == [] || n + s[0] > SIZE_MAX then Failed(0)
    else if s[0] == 255 then
      match ReadExtension(s[1..], n + 255)
      case Failed(e) => Failed(e)
      case Got(v, p) => Got(v, p + 1)
    else Got(n + s[0], 1)
  }

  function ReadLength(s: seq<byte>, nibble: nat, least: nat): (r: Parse<nat>)
    ensures r.Got? ==> r.pos <= |s|
  {
    if nibble == 15 then ReadExtension(s, 15 + least) else Got(nibble + least, 0)
  }

  /** The output of the rest of a block, after out, if it is well formed and fits cap bytes. */
  function Decode(s: seq<byte>, out: seq<byte>, cap: nat): (r: Option<seq<byte>>)
    requires |out| <= cap
    ensures r.Some? ==> out <= r.value && |r.value| <= cap
    decreases |s|
  {
    if s == [] then Some(out)
    else
      var lits := ReadLength(s[1..], s[0] / 16, 0);
      if lits.Failed? then None
      else
        var s1 := s[1..][lits.pos..];
        if lits.value > |s1| || lits.value > cap - |out| then None
        else
          var out1, s2 := out + s1[..lits.value], s1[lits.value..];
          if s2 == [] then Some(out1) else DecodeMatch(s[0] % 16, s2, out1, cap)
  }

  /** The match after some literals. */
  function DecodeMatch(nibble: nat, s: seq<byte>, out: seq<byte>, cap: nat): (r: Option<seq<byte>>)
    requires |out| <= cap
    ensures r.Some? ==> out <= r.value && |r.value| <= cap
    decreases |s|
  {
    if |s| < 2 then None
    else
      var offset: nat := s[0] + 256 * (s[1] as nat);
      if offset == 0 || |out| < offset then None
      else
        var len := ReadLength(s[2..], nibble, MIN_MATCH);
        if len.Failed? || len.value > cap - |out| then None
        else Decode(s[2..][len.pos..], Copy(out, offset, len.value), cap)
  }

  // ----- reading back -----

  lemma {:induction false} ExtensionBack(n: nat, base: nat, rest: seq<byte>)
    requires base + n <= SIZE_MAX
    ensures ReadExtension(LengthBytes(n) + rest, base) == Got(base + n, |LengthBytes(n)|)
  {
    var b := LengthBytes(n) + rest;
    if n >= 255 {
      assert b[1..] == LengthBytes(n - 255) + rest;
      ExtensionBack(n - 255, base + 255, rest);
    } else {
      assert b == [n] + rest;
    }
  }

  lemma LengthBack(n: nat, least: nat, rest: seq<byte>)
    requires n + least <= SIZE_MAX
    ensures ReadLength(Extension(n) + rest, Capped(n), least) == Got(n + least, |Extension(n)|)
  {
    if n >= 15 {
      ExtensionBack(n - 15, 15 + least, rest);
    }
  }

  lemma HeadNibbles(a: nat, b: nat)
    ensures Head(a, b) / 16 == Capped(a) && Head(a, b) % 16 == Capped(b)
  {
  }

  lemma OffsetBytes(d: nat)
    requires d <= 65535
    ensures d / 256 < 256 && d % 256 + 256 * (d / 256) == d
  {
  }

  lemma DropFront(a: seq<byte>, b: seq<byte>)
    ensures (a + b)[..|a|] == a && (a + b)[|a|..] == b
  {
  }

  /** A sequence is read as its literals and its match. */
  lemma SequenceBack(q: Sequence, rest: seq<byte>, out: seq<byte>, cap: nat)
    requires SequenceOk(q) && 1 <= q.offset <= |out| + |q.lits| && |out| + |q.lits| + q.len <= cap
    ensures Decode(SequenceBytes(q) + rest, out, cap) == Decode(rest, Copy(out + q.lits, q.offset, q.len), cap)
  {
    hide Decode, DecodeMatch, Copy, Extension, Head;
    var m, o := q.len - MIN_MATCH, [q.offset % 256, q.offset / 256];
    var tail := o + (Extension(m) + rest);
    RegroupSequence([Head(|q.lits|, m)], Extension(|q.lits|), q.lits, o, Extension(m), rest);
    LiteralsBack(SequenceBytes(q) + rest, q.lits, m, tail, out, cap);
    MatchBack(m, q.offset, rest, out + q.lits, cap);
    assert |tail| >= 2;
  }

  lemma RegroupSequence(a: seq<byte>, b: seq<byte>, c: seq<byte>, d: seq<byte>, e: seq<byte>, rest: seq<byte>)
    ensures a + (b + (c + (d + e))) + rest == a + (b + (c + (d + (e + rest))))
  {
  }

  lemma LiteralsBack(s: seq<byte>, lits: seq<byte>, m: nat, tail: seq<byte>, out: seq<byte>, cap: nat)
    requires s == [Head(|lits|, m)] + (Extension(|lits|) + (lits + tail)) && |lits| <= SIZE_MAX && |out| + |lits| <= cap
    ensures Decode(s, out, cap) == if tail == [] then Some(out + lits) else DecodeMatch(Capped(m), tail, out + lits, cap)
  {
    HeadNibbles(|lits|, m);
    var s0 := Extension(|lits|) + (lits + tail);
    assert s[1..] == s0;
    LengthBack(|lits|, 0, lits + tail);
    DropFront(Extension(|lits|), lits + tail);
    DropFront(lits, tail);
  }

  lemma MatchBack(m: nat, offset: nat, rest: seq<byte>, out: seq<byte>, cap: nat)
    requires 1 <= offset <= 65535 && offset <= |out| && |out| + m + MIN_MATCH <= cap && m + MIN_MATCH <= SIZE_MAX
    ensures DecodeMatch(Capped(m), [offset % 256, offset / 256] + (Extension(m) + rest), out, cap)
            == Decode(rest, Copy(out, offset, m + MIN_MATCH), cap)
  {
    hide Decode, Copy, Extension, ReadLength;
    OffsetBytes(offset);
    LengthBack(m, MIN_MATCH, rest);
    DropFront(Extension(m), rest);
    MatchOf(Capped(m), offset % 256, offset / 256, Extension(m) + rest, out, cap);
  }

  lemma MatchOf(nibble: nat, lo: byte, hi: byte, s: seq<byte>, out: seq<byte>, cap: nat)
    requires |out| <= cap && 1 <= lo + 256 * (hi as nat) <= |out|
    requires var len := ReadLength(s, nibble, MIN_MATCH); len.Got? && len.value <= cap - |out|
    ensures var len := ReadLength(s, nibble, MIN_MATCH);
            DecodeMatch(nibble, [lo, hi] + s, out, cap) == Decode(s[len.pos..], Copy(out, lo + 256 * (hi as nat), len.value), cap)
  {
    hide Decode, Copy, ReadLength;
    assert ([lo, hi] + s)[2..] == s;
  }

  lemma {:induction false} SequencesBack(qs: seq<Sequence>, rest: seq<byte>, cap: nat)
    requires SequencesOk(qs) && Replays(qs) && |Replayed(qs)| <= cap
    ensures Decode(SequencesBytes(qs) + rest, [], cap) == Decode(rest, Replayed(qs), cap)
  {
    if qs == [] {
      assert SequencesBytes(qs) + rest == rest;
    } else {
      var n := |qs| - 1;
      var q, before := qs[n], qs[..n];
      assert SequencesBytes(qs) + rest == SequencesBytes(before) + (SequenceBytes(q) + rest);
      SequencesBack(before, SequenceBytes(q) + rest, cap);
      SequenceBack(q, rest, Replayed(before), cap);
    }
  }

  /** A block replays its sequences and ends with its last literals. */
  lemma BlockBack(qs: seq<Sequence>, last: seq<byte>, cap: nat)
    requires SequencesOk(qs) && Replays(qs) && |Replayed(qs) + last| <= cap && |last| <= SIZE_MAX
    ensures Decode(SequencesBytes(qs) + LastBytes(last), [], cap) == Some(Replayed(qs) + last)
  {
    SequencesBack(qs, LastBytes(last), cap);
    assert LastBytes(last) == [Head(|last|, 0)] + (Extension(|last|) + (last + []));
    LiteralsBack(LastBytes(last), last, 0, [], Replayed(qs), cap);
  }

  // ----- what the compressor produces -----

  /** Sequences that cover the text up to a position. */
  ghost predicate Covers(qs: seq<Sequence>, text: seq<byte>, pos: nat)
  {
    SequencesOk(qs) && Replays(qs) && pos <= |text| && Replayed(qs) == text[..pos]
  }

  /** The last five bytes are literals, and the last match starts at least twelve bytes before the end. */
  ghost predicate EndConditions(qs: seq<Sequence>, last: seq<byte>, total: nat)
  {
    qs != [] ==> |last| >= 5 && |last| + qs[|qs| - 1].len >= 12 && total >= 13
  }

  /** A block that means the text and ends as the block format demands. */
  ghost predicate Encodes(block: seq<byte>, text: seq<byte>)
  {
    exists qs: seq<Sequence>, last: seq<byte> ::
      SequencesOk(qs) && Replays(qs) && Replayed(qs) + last == text && |last| <= SIZE_MAX
      && EndConditions(qs, last, |text|) && block == SequencesBytes(qs) + LastBytes(last)
  }

  /** Decompressing gives back the text whenever there is room for it. */
  lemma RoundTrip(block: seq<byte>, text: seq<byte>, cap: nat)
    requires Encodes(block, text) && |text| <= cap
    ensures block != [] && Decode(block, [], cap) == Some(text)
  {
    var qs, last :| SequencesOk(qs) && Replays(qs) && Replayed(qs) + last == text && |last| <= SIZE_MAX
      && EndConditions(qs, last, |text|) && block == SequencesBytes(qs) + LastBytes(last);
    BlockBack(qs, last, cap);
  }

  ghost predicate Repeats(text: seq<byte>, pos: nat, ref: nat, len: nat)
  {
    ref < pos <= pos + len <= |text| && forall k :: pos <= k < pos + len ==> text[k] == text[k - (pos - ref)]
  }

  lemma CoversMore(qs: seq<Sequence>, text: seq<byte>, anchor: nat, pos: nat, ref: nat, len: nat)
    requires Covers(qs, text, anchor) && anchor <= pos && Repeats(text, pos, ref, len) && pos - ref <= 65535 && MIN_MATCH <= len
    requires |text| <= U32_MAX
    ensures Covers(qs + [Sequence(text[anchor..pos], pos - ref, len)], text, pos + len)
    ensures SequencesBytes(qs + [Sequence(text[anchor..pos], pos - ref, len)])
            == SequencesBytes(qs) + SequenceBytes(Sequence(text[anchor..pos], pos - ref, len))
  {
    var q := Sequence(text[anchor..pos], pos - ref, len);
    var all := qs + [q];
    assert all[..|all| - 1] == qs;
    assert text[..anchor] + text[anchor..pos] == text[..pos];
    CopyReproduces(text, pos, pos - ref, len);
  }

  /** A sequence of at least four matched bytes takes no more room than it covers, with one byte in 255 to spare. */
  lemma RoomForSequence(used: nat, anchor: nat, lits: nat, len: nat)
    requires used <= anchor + anchor / 255 && MIN_MATCH <= len
    ensures used + lits + Overhead(lits, len - MIN_MATCH) <= anchor + lits + len + (anchor + lits + len) / 255
  {
    assert anchor / 255 + lits / 255 + len / 255 <= (anchor + lits + len) / 255;
  }

  function Overhead(lits: nat, m: nat): nat
  {
    3 + (if lits > 14 then lits / 255 + 1 else 0) + if m > 14 then m / 255 + 1 else 0
  }

  lemma SequenceSize(q: Sequence)
    requires SequenceOk(q)
    ensures |SequenceBytes(q)| <= |q.lits| + Overhead(|q.lits|, q.len - MIN_MATCH)
    ensures |Extension(|q.lits|)| + 1 + |q.lits| + 2 + |Extension(q.len - MIN_MATCH)| == |SequenceBytes(q)|
  {
  }

  // ----- the compressor -----

  /** The most bytes a text of n bytes can take. */
  function Bound(n: nat): nat { n + n / 255 + 16 }

  function Hash(src: seq<byte>, i: nat): (h: nat)
    requires i + 4 <= |src|
    ensures h < HASH_SIZE
  {
    var v: nat := src[i] + 0x100 * (src[i + 1] as nat) + 0x1_0000 * (src[i + 2] as nat) + 0x100_0000 * (src[i + 3] as nat);
    (v * FACTOR) % 0x1_0000_0000 / 0x1_0000
  }

  /** The upper half of a product comes from the upper half of the word. */
  lemma UpperHalf(low: nat, high: nat)
    ensures ((low + 0x1_0000 * high) * FACTOR) % 0x1_0000_0000 / 0x1_0000 == (low * FACTOR / 0x1_0000 + high * FACTOR) % 0x1_0000
  {
    MiddleBits(low * FACTOR, high * FACTOR);
    assert (low + 0x1_0000 * high) * FACTOR == low * FACTOR + 0x1_0000 * (high * FACTOR);
  }

  lemma MiddleBits(a: nat, b: nat)
    ensures (a + 0x1_0000 * b) % 0x1_0000_0000 / 0x1_0000 == (a / 0x1_0000 + b) % 0x1_0000
  {
    assert (a + 0x1_0000 * b) / 0x1_0000 == a / 0x1_0000 + b;
  }

  /** The factor is odd, so its multiples tell numbers of 16 bits apart. */
  lemma FactorTells(c: nat, x: nat, y: nat)
    requires x < 0x1_0000 && y < 0x1_0000 && (c + x * FACTOR) % 0x1_0000 == (c + y * FACTOR) % 0x1_0000
    ensures x == y
  {
    var q := (c + x * FACTOR) / 0x1_0000 - (c + y * FACTOR) / 0x1_0000;
    assert (x - y) * FACTOR == 0x1_0000 * q;
    Inverse(x - y, q);
  }

  lemma Inverse(d: int, q: int)
    requires d * FACTOR == 0x1_0000 * q && -0x1_0000 < d < 0x1_0000
    ensures d == 0
  {
    assert FACTOR * 12113 == 1 + 0x1_0000 * 490618597;
    assert d == 0x1_0000 * (12113 * q - 490618597 * d);
  }

  /** Of four bytes that begin with the same two, those with different last two have different hashes. */
  lemma HashTells(src: seq<byte>, i: nat, j: nat)
    requires i + 4 <= |src| && j + 4 <= |src| && src[i] == src[j] && src[i + 1] == src[j + 1]
    ensures Hash(src, i) == Hash(src, j) <==> src[i + 2] == src[j + 2] && src[i + 3] == src[j + 3]
  {
    var low: nat := src[i] + 0x100 * (src[i + 1] as nat);
    var x: nat, y: nat := src[i + 2] + 0x100 * (src[i + 3] as nat), src[j + 2] + 0x100 * (src[j + 3] as nat);
    UpperHalf(low, x);
    UpperHalf(low, y);
    if Hash(src, i) == Hash(src, j) {
      FactorTells(low * FACTOR / 0x1_0000, x, y);
    }
  }

  /** Writes the bytes of a length. */
  method WriteLength(dst: array<byte>, op0: nat, len0: nat) returns (op: nat)
    requires op0 + len0 / 255 + 1 <= dst.Length
    modifies dst
    ensures op == op0 + |LengthBytes(len0)| && dst[..op] == old(dst[..op0]) + LengthBytes(len0)
  {
    var len := len0;
    op := op0;
    while len >= 255
      invariant op0 <= op && op + len / 255 == op0 + len0 / 255
      invariant dst[..op] + LengthBytes(len) == old(dst[..op0]) + LengthBytes(len0)
    {
      ghost var before := dst[..op];
      dst[op] := 255;
      assert dst[..op + 1] == before + [255];
      op := op + 1;
      len := len - 255;
    }
    ghost var before := dst[..op];
    dst[op] := len;
    op := op + 1;
    assert dst[..op] == before + [len];
  }

  method WriteExtension(dst: array<byte>, op0: nat, n: nat) returns (op: nat)
    requires op0 + |Extension(n)| <= dst.Length
    modifies dst
    ensures op == op0 + |Extension(n)| && dst[..op] == old(dst[..op0]) + Extension(n)
  {
    op := op0;
    if n >= 15 {
      op := WriteLength(dst, op, n - 15);
    }
  }

  method WriteByte(dst: array<byte>, op0: nat, b: byte) returns (op: nat)
    requires op0 < dst.Length
    modifies dst
    ensures op == op0 + 1 && dst[..op] == old(dst[..op0]) + [b]
  {
    dst[op0] := b;
    op := op0 + 1;
  }

  method CopyLiterals(dst: array<byte>, op0: nat, lits: seq<byte>) returns (op: nat)
    requires op0 + |lits| <= dst.Length
    modifies dst
    ensures op == op0 + |lits| && dst[..op] == old(dst[..op0]) + lits
  {
    for k := 0 to |lits|
      invariant dst[..op0 + k] == old(dst[..op0]) + lits[..k]
    {
      dst[op0 + k] := lits[k];
      assert dst[..op0 + k + 1] == dst[..op0 + k] + [lits[k]];
      assert lits[..k + 1] == lits[..k] + [lits[k]];
    }
    op := op0 + |lits|;
    assert lits[..|lits|] == lits;
  }

  // ----- which matches are found -----

  ghost predicate HashIs(src: seq<byte>, p: nat, h: nat) { p + 4 <= |src| && Hash(src, p) == h }

  /** The last of the positions tried that has a hash; the start of the text if there is none. */
  ghost function LastSeen(src: seq<byte>, tried: seq<nat>, h: nat): nat
  {
    if tried == [] then 0
    else
      var n := |tried| - 1;
      if HashIs(src, tried[n], h) then tried[n] else LastSeen(src, tried[..n], h)
  }

  ghost function Candidate(src: seq<byte>, tried: seq<nat>, p: nat): nat
    requires p + 4 <= |src|
  {
    LastSeen(src, tried, Hash(src, p))
  }

  /** The four bytes at p are those of the last position tried that has their hash, and it is in reach. */
  ghost predicate Hit(src: seq<byte>, tried: seq<nat>, p: nat)
  {
    p + 4 <= |src| && var ref := Candidate(src, tried, p); ref < p <= ref + 65535 && src[ref..ref + 4] == src[p..p + 4]
  }

  ghost predicate NoHit(src: seq<byte>, tried: seq<nat>, from: nat, to: int)
  {
    forall p: nat :: from <= p < to ==> !Hit(src, tried + Positions(from, p), p)
  }

  ghost predicate TableIs(htab: seq<nat>, src: seq<byte>, tried: seq<nat>)
  {
    |htab| == HASH_SIZE && forall h: nat :: h < HASH_SIZE ==> htab[h] == LastSeen(src, tried, h)
  }

  lemma TableMore(htab: seq<nat>, src: seq<byte>, tried: seq<nat>, p: nat)
    requires TableIs(htab, src, tried) && p + 4 <= |src|
    ensures TableIs(htab[Hash(src, p) := p], src, tried + [p])
  {
    hide Hash;
    var more := tried + [p];
    assert more[..|tried|] == tried;
  }

  lemma TableStarts(htab: seq<nat>, src: seq<byte>)
    requires |htab| == HASH_SIZE && forall h :: 0 <= h < HASH_SIZE ==> htab[h] == 0
    ensures TableIs(htab, src, [])
  {
  }

  lemma NoHitMore(src: seq<byte>, tried: seq<nat>, from: nat, to: nat)
    requires NoHit(src, tried, from, to) && from <= to && !Hit(src, tried + Positions(from, to), to)
    ensures NoHit(src, tried, from, to + 1)
  {
    hide Hit, Positions;
  }

  /** Looks for four bytes that the table has seen before, from ip up to the last place a match may start. */
  method FindMatch(src: seq<byte>, htab: array<nat>, ip0: nat, limit: nat, ghost tried: seq<nat>)
    returns (found: bool, ip: nat, ref: nat)
    requires htab.Length == HASH_SIZE && limit + 12 == |src| && TableIs(htab[..], src, tried)
    modifies htab
    ensures found ==> ip0 <= ip <= limit && ip - ref <= 65535 && Repeats(src, ip, ref, MIN_MATCH)
    ensures found ==> NoHit(src, tried, ip0, ip) && ref == Candidate(src, tried + Positions(ip0, ip), ip)
    ensures found ==> Hit(src, tried + Positions(ip0, ip), ip) && TableIs(htab[..], src, tried + Positions(ip0, ip + 1))
    ensures !found ==> NoHit(src, tried, ip0, limit + 1)
  {
    hide Hash, TableIs, LastSeen, NoHit;
    ip, ref := ip0, 0;
    NothingTried(src, tried, ip0);
    while ip <= limit
      invariant ip0 <= ip && (ip0 <= limit ==> ip <= limit + 1)
      invariant TableIs(htab[..], src, tried + Positions(ip0, ip)) && NoHit(src, tried, ip0, ip)
    {
      ghost var table := htab[..];
      var h := Hash(src, ip);
      ref := htab[h];
      TableGives(table, src, tried + Positions(ip0, ip), ip);
      htab[h] := ip;
      assert htab[..] == table[h := ip];
      TableMore(table, src, tried + Positions(ip0, ip), ip);
      PositionsMore(ip0, ip);
      assert tried + Positions(ip0, ip) + [ip] == tried + Positions(ip0, ip + 1);
      if 0 < ip - ref <= 65535 && src[ref..ref + MIN_MATCH] == src[ip..ip + MIN_MATCH] {
        SameFour(src, ip, ref);
        return true, ip, ref;
      }
      NoHitMore(src, tried, ip0, ip);
      ip := ip + 1;
    }
    found := false;
    NoHitUpTo(src, tried, ip0, ip, limit + 1);
  }

  /** How much of the text sequences cover, and where the next search starts; the first byte cannot be a match. */
  ghost function Covered(qs: seq<Sequence>): nat
  {
    if qs == [] then 0 else var q := qs[|qs| - 1]; Covered(qs[..|qs| - 1]) + |q.lits| + q.len
  }

  ghost function Start(qs: seq<Sequence>): nat { if qs == [] then 1 else Covered(qs) }

  /** The positions tried: all searched ones, and behind each match the one two bytes before its end. */
  ghost function Tried(src: seq<byte>, qs: seq<Sequence>): seq<nat>
  {
    if qs == [] then []
    else
      var prev, end := qs[..|qs| - 1], Covered(qs);
      Tried(src, prev) + Positions(Start(prev), Covered(prev) + |qs[|qs| - 1].lits| + 1) + if 2 <= end && end + 12 <= |src| then [end - 2] else []
  }

  ghost predicate Longest(src: seq<byte>, at: nat, ref: nat, len: nat)
  {
    && MIN_MATCH <= len && at + len + 5 <= |src| && Repeats(src, at, ref, len)
    && (at + len + 5 == |src| || src[ref + len] != src[at + len])
  }

  /** The next match is the first hit, taken as far as it repeats. */
  ghost predicate Follows(src: seq<byte>, qs: seq<Sequence>, q: Sequence)
  {
    var from, at := Covered(qs), Covered(qs) + |q.lits|;
    && Start(qs) <= at && at + 12 <= |src| && q.lits == src[from..at]
    && NoHit(src, Tried(src, qs), Start(qs), at) && Hit(src, Tried(src, qs) + Positions(Start(qs), at), at)
    && var ref := Candidate(src, Tried(src, qs) + Positions(Start(qs), at), at);
       q.offset == at - ref && Longest(src, at, ref, q.len)
  }

  ghost predicate Greedy(src: seq<byte>, qs: seq<Sequence>)
  {
    qs != [] ==> Greedy(src, qs[..|qs| - 1]) && Follows(src, qs[..|qs| - 1], qs[|qs| - 1])
  }

  /** No further match is found. */
  ghost predicate Exhausted(src: seq<byte>, qs: seq<Sequence>)
  {
    NoHit(src, Tried(src, qs), Start(qs), |src| - 11)
  }

  ghost predicate Writes(src: seq<byte>, qs: seq<Sequence>, at: nat, bytes: seq<byte>)
  {
    at <= |src| && SequencesOk(qs) && bytes == SequencesBytes(qs) + LastBytes(src[at..])
  }

  /** A text of 13 bytes and more is the matches found and its last bytes; a shorter one has no matches. */
  ghost predicate Parses(src: seq<byte>, qs: seq<Sequence>, bytes: seq<byte>)
  {
    (if |src| >= 13 then Greedy(src, qs) && Exhausted(src, qs) else qs == []) && Writes(src, qs, Covered(qs), bytes)
  }

  lemma OneLength(src: seq<byte>, at: nat, ref: nat, len: nat, len': nat)
    requires Longest(src, at, ref, len) && Longest(src, at, ref, len')
    ensures len == len'
  {
    Shorter(src, at, ref, len, len');
    Shorter(src, at, ref, len', len);
  }

  lemma Shorter(src: seq<byte>, at: nat, ref: nat, len: nat, more: nat)
    requires Longest(src, at, ref, len) && Longest(src, at, ref, more)
    ensures more <= len
  {
    hide Repeats;
    if len < more {
      RepeatAt(src, at, ref, more, len);
    }
  }

  lemma RepeatAt(src: seq<byte>, at: nat, ref: nat, len: nat, k: nat)
    requires Repeats(src, at, ref, len) && k < len
    ensures at + k < |src| && ref < at && src[ref + k] == src[at + k]
  {
    assert src[at + k] == src[at + k - (at - ref)];
  }

  lemma FirstHit(src: seq<byte>, tried: seq<nat>, from: nat, at: nat, p: nat)
    requires NoHit(src, tried, from, at) && from <= p && Hit(src, tried + Positions(from, p), p)
    ensures at <= p
  {
    hide Hit, Positions;
  }

  /** What follows is determined. */
  lemma OneFollows(src: seq<byte>, qs: seq<Sequence>, q: Sequence, q': Sequence)
    requires Follows(src, qs, q) && Follows(src, qs, q')
    ensures q == q'
  {
    hide Hit, NoHit, Candidate, Longest, Covered, Tried, Positions;
    var tried, at, at' := Tried(src, qs), Covered(qs) + |q.lits|, Covered(qs) + |q'.lits|;
    FirstHit(src, tried, Start(qs), at, at');
    FirstHit(src, tried, Start(qs), at', at);
    OneLength(src, at, Candidate(src, tried + Positions(Start(qs), at), at), q.len, q'.len);
  }

  lemma {:induction false} SamePrefix(src: seq<byte>, qs: seq<Sequence>, qs': seq<Sequence>, k: nat)
    requires Greedy(src, qs) && Greedy(src, qs') && k <= |qs| && k <= |qs'|
    ensures qs[..k] == qs'[..k] && Greedy(src, qs[..k])
    decreases |qs| + |qs'|
  {
    hide Follows;
    if k < |qs| {
      SamePrefix(src, qs[..|qs| - 1], qs', k);
      assert qs[..|qs| - 1][..k] == qs[..k];
    } else if k < |qs'| {
      SamePrefix(src, qs, qs'[..|qs'| - 1], k);
      assert qs'[..|qs'| - 1][..k] == qs'[..k];
    } else if k > 0 {
      SamePrefix(src, qs[..k - 1], qs'[..k - 1], k - 1);
      assert qs[..k - 1][..k - 1] == qs[..k - 1] && qs'[..k - 1][..k - 1] == qs'[..k - 1];
      OneFollows(src, qs[..k - 1], qs[k - 1], qs'[k - 1]);
    }
    assert qs[..|qs|] == qs && qs'[..|qs'|] == qs';
  }

  lemma {:induction false} GreedyAt(src: seq<byte>, qs: seq<Sequence>, k: nat)
    requires Greedy(src, qs) && k < |qs|
    ensures Follows(src, qs[..k], qs[k])
  {
    hide Follows;
    if k < |qs| - 1 {
      GreedyAt(src, qs[..|qs| - 1], k);
      assert qs[..|qs| - 1][..k] == qs[..k];
    }
  }

  lemma EndsHere(src: seq<byte>, qs: seq<Sequence>)
    requires Exhausted(src, qs)
    ensures forall q :: !Follows(src, qs, q)
  {
    hide Hit, Candidate, Longest, Covered, Tried, Positions;
  }

  lemma NoMore(src: seq<byte>, qs: seq<Sequence>, k: nat)
    requires Greedy(src, qs) && k <= |qs| && Exhausted(src, qs[..k])
    ensures k == |qs|
  {
    hide Greedy, Exhausted, Follows;
    EndsHere(src, qs[..k]);
    if k < |qs| {
      GreedyAt(src, qs, k);
    }
  }

  /** A text has one greedy parse. */
  lemma OneParse(src: seq<byte>, qs: seq<Sequence>, qs': seq<Sequence>)
    requires Greedy(src, qs) && Exhausted(src, qs) && Greedy(src, qs') && Exhausted(src, qs')
    ensures qs == qs'
  {
    hide Greedy, Exhausted;
    var k := if |qs| <= |qs'| then |qs| else |qs'|;
    SamePrefix(src, qs, qs', k);
    assert qs[..|qs|] == qs && qs'[..|qs'|] == qs';
    NoMore(src, qs, k);
    NoMore(src, qs', k);
  }

  lemma NothingTried(src: seq<byte>, tried: seq<nat>, at: nat)
    ensures tried + Positions(at, at) == tried && NoHit(src, tried, at, at)
  {
    hide Hit;
  }

  lemma NoHitUpTo(src: seq<byte>, tried: seq<nat>, from: nat, a: nat, b: nat)
    requires NoHit(src, tried, from, a) && (b <= a || b <= from)
    ensures NoHit(src, tried, from, b)
  {
    hide Hit, Positions;
  }

  lemma TableGives(htab: seq<nat>, src: seq<byte>, tried: seq<nat>, p: nat)
    requires TableIs(htab, src, tried) && p + 4 <= |src|
    ensures htab[Hash(src, p)] == Candidate(src, tried, p)
  {
    hide LastSeen;
  }

  lemma SameFour(src: seq<byte>, ip: nat, ref: nat)
    requires ref < ip && ip + MIN_MATCH <= |src| && src[ref..ref + MIN_MATCH] == src[ip..ip + MIN_MATCH]
    ensures Repeats(src, ip, ref, MIN_MATCH)
  {
    forall k | ip <= k < ip + MIN_MATCH ensures src[k] == src[k - (ip - ref)] {
      assert src[ip..ip + MIN_MATCH][k - ip] == src[k] && src[ref..ref + MIN_MATCH][k - ip] == src[k - (ip - ref)];
    }
  }

  /** How far the match goes on, five bytes short of the end at most. */
  method Extend(src: seq<byte>, ip: nat, ref: nat) returns (len: nat)
    requires ip + 12 <= |src| && Repeats(src, ip, ref, MIN_MATCH)
    ensures MIN_MATCH <= len && ip + len + 5 <= |src| && Repeats(src, ip, ref, len)
    ensures ip + len + 5 == |src| || src[ref + len] != src[ip + len]
  {
    len := MIN_MATCH;
    while len < |src| - ip - 5 && src[ref + len] == src[ip + len]
      invariant MIN_MATCH <= len && ip + len + 5 <= |src| && Repeats(src, ip, ref, len)
    {
      len := len + 1;
    }
  }

  /** Writes one sequence, or reports that its upper bound does not fit. */
  method EmitSequence(dst: array<byte>, op0: nat, q: Sequence) returns (ok: bool, op: nat)
    requires op0 <= dst.Length && SequenceOk(q)
    modifies dst
    ensures ok <==> op0 + |q.lits| + Overhead(|q.lits|, q.len - MIN_MATCH) <= dst.Length
    ensures ok ==> op == op0 + |SequenceBytes(q)| <= dst.Length && dst[..op] == old(dst[..op0]) + SequenceBytes(q)
  {
    hide Extension, Overhead;
    var lits, m := |q.lits|, q.len - MIN_MATCH;
    op := op0;
    if lits > dst.Length - op || Overhead(lits, m) > dst.Length - op - lits {
      return false, op;
    }
    SequenceSize(q);
    op := WriteByte(dst, op, Head(lits, m));
    op := WriteExtension(dst, op, lits);
    op := CopyLiterals(dst, op, q.lits);
    op := WriteByte(dst, op, q.offset % 256);
    op := WriteByte(dst, op, q.offset / 256);
    op := WriteExtension(dst, op, m);
    ok := true;
    JoinParts(old(dst[..op0]), Head(lits, m), Extension(lits), q.lits, q.offset % 256, q.offset / 256, Extension(m));
  }

  lemma JoinParts(s: seq<byte>, a: byte, b: seq<byte>, c: seq<byte>, d: byte, e: byte, f: seq<byte>)
    ensures s + [a] + b + c + [d] + [e] + f == s + ([a] + (b + (c + ([d, e] + f))))
  {
  }

  /** Where the last match lies. */
  ghost predicate EndsEarly(qs: seq<Sequence>, anchor: nat, total: nat)
  {
    qs != [] ==> total >= 13 && anchor + 5 <= total && qs[|qs| - 1].len <= anchor && anchor - qs[|qs| - 1].len + 12 <= total
  }

  ghost predicate Emitted(qs: seq<Sequence>, src: seq<byte>, anchor: nat, bytes: seq<byte>)
  {
    Covers(qs, src, anchor) && bytes == SequencesBytes(qs) && EndsEarly(qs, anchor, |src|)
    && |bytes| <= anchor + anchor / 255
  }

  lemma EmittedMore(qs: seq<Sequence>, src: seq<byte>, anchor: nat, bytes: seq<byte>, ip: nat, ref: nat, len: nat)
    requires Emitted(qs, src, anchor, bytes) && |src| <= U32_MAX && anchor <= ip && ip + 12 <= |src| && ip + len + 5 <= |src|
    requires Repeats(src, ip, ref, len) && ip - ref <= 65535 && MIN_MATCH <= len
    ensures var q := Sequence(src[anchor..ip], ip - ref, len);
            && SequenceOk(q) && Emitted(qs + [q], src, ip + len, bytes + SequenceBytes(q))
            && |bytes| + |q.lits| + Overhead(|q.lits|, len - MIN_MATCH) <= |src| + |src| / 255
  {
    hide SequenceBytes, SequencesBytes, Overhead, Replays, Replayed, Repeats;
    LengthFits(src, ip, ref, len);
    var q := Sequence(src[anchor..ip], ip - ref, len);
    CoversMore(qs, src, anchor, ip, ref, len);
    RoomForSequence(|bytes|, anchor, ip - anchor, len);
    SequenceSize(q);
  }

  lemma LengthFits(src: seq<byte>, ip: nat, ref: nat, len: nat)
    requires Repeats(src, ip, ref, len)
    ensures ref < ip && ip + len <= |src|
  {
  }

  /** The match loop: false when the output is full. */
  method EmitSequences(src: seq<byte>, dst: array<byte>, htab: array<nat>) returns (ok: bool, anchor: nat, op: nat, ghost qs: seq<Sequence>)
    requires 13 <= |src| <= U32_MAX && htab.Length == HASH_SIZE && htab != dst as object && TableIs(htab[..], src, [])
    modifies htab, dst
    ensures ok ==> op <= dst.Length && Emitted(qs, src, anchor, dst[..op])
    ensures dst.Length >= |src| + |src| / 255 ==> ok
    ensures ok ==> Greedy(src, qs) && Exhausted(src, qs) && anchor == Covered(qs)
  {
    hide Emitted, Repeats, Overhead, SequenceBytes, Greedy, Covered, Tried, Hit, NoHit, TableIs, Positions, Exhausted, Candidate, Hash;
    var limit, ip := |src| - 12, 1;
    anchor, op, qs := 0, 0, [];
    NothingEmitted(src);
    NothingFound(src);
    assert dst[..0] == [];
    while true
      invariant anchor <= ip <= |src| && op <= dst.Length && Emitted(qs, src, anchor, dst[..op])
      invariant anchor == Covered(qs) && ip == Start(qs) && Greedy(src, qs) && TableIs(htab[..], src, Tried(src, qs))
      decreases |src| - ip
    {
      ghost var tried := Tried(src, qs);
      var found, at, ref := FindMatch(src, htab, ip, limit, tried);
      if !found {
        SearchEnds(src, qs);
        return true, anchor, op, qs;
      }
      var len := Extend(src, at, ref);
      LengthFits(src, at, ref, len);
      EmittedMore(qs, src, anchor, dst[..op], at, ref, len);
      var q := Sequence(src[anchor..at], at - ref, len);
      ok, op := EmitSequence(dst, op, q);
      if !ok {
        return false, anchor, op, qs;
      }
      MatchFound(src, qs, q, at, ref);
      qs := qs + [q];
      ip := at + len;
      anchor := ip;
      if ip > limit {
        BehindLimit(src, qs);
        return true, anchor, op, qs;
      }
      ghost var table := htab[..];
      htab[Hash(src, ip - 2)] := ip - 2;
      ghost var back: nat := ip - 2;
      assert htab[..] == table[Hash(src, back) := back];
      TableMore(table, src, tried + Positions(Start(qs[..|qs| - 1]), at + 1), ip - 2);
    }
  }

  lemma NothingFound(src: seq<byte>)
    ensures Covered([]) == 0 && Greedy(src, []) && Tried(src, []) == []
  {
  }

  lemma SearchEnds(src: seq<byte>, qs: seq<Sequence>)
    requires |src| >= 12 && NoHit(src, Tried(src, qs), Start(qs), |src| - 12 + 1)
    ensures Exhausted(src, qs)
  {
    hide NoHit;
  }

  lemma BehindLimit(src: seq<byte>, qs: seq<Sequence>)
    requires Start(qs) + 12 > |src|
    ensures Exhausted(src, qs)
  {
    hide Hit;
  }

  /** The match found goes behind the sequences so far. */
  lemma MatchFound(src: seq<byte>, qs: seq<Sequence>, q: Sequence, at: nat, ref: nat)
    requires Greedy(src, qs) && Start(qs) <= at && Covered(qs) <= at && at + 12 <= |src|
    requires var tried := Tried(src, qs) + Positions(Start(qs), at);
             NoHit(src, Tried(src, qs), Start(qs), at) && Hit(src, tried, at) && ref == Candidate(src, tried, at)
    requires q == Sequence(src[Covered(qs)..at], at - ref, q.len) && Longest(src, at, ref, q.len)
    ensures Greedy(src, qs + [q]) && Covered(qs + [q]) == at + q.len == Start(qs + [q])
    ensures var end := at + q.len;
            Tried(src, qs + [q]) == Tried(src, qs) + Positions(Start(qs), at + 1) + if end + 12 <= |src| then [end - 2] else []
  {
    hide *;
    FoundFollows(src, qs, q, at, ref);
    OneMore(src, qs, q);
    LongEnough(src, at, ref, q.len);
    StartBehind(qs + [q]);
  }

  lemma FoundFollows(src: seq<byte>, qs: seq<Sequence>, q: Sequence, at: nat, ref: nat)
    requires Start(qs) <= at && Covered(qs) <= at && at + 12 <= |src|
    requires var tried := Tried(src, qs) + Positions(Start(qs), at);
             NoHit(src, Tried(src, qs), Start(qs), at) && Hit(src, tried, at) && ref == Candidate(src, tried, at)
    requires q == Sequence(src[Covered(qs)..at], at - ref, q.len) && Longest(src, at, ref, q.len)
    ensures Follows(src, qs, q)
  {
    hide Hit, NoHit, Candidate, Longest, Positions, Covered, Tried, Start;
  }

  lemma OneMore(src: seq<byte>, qs: seq<Sequence>, q: Sequence)
    ensures Greedy(src, qs) && Follows(src, qs, q) ==> Greedy(src, qs + [q])
    ensures Covered(qs + [q]) == Covered(qs) + |q.lits| + q.len
    ensures var end := Covered(qs) + |q.lits| + q.len;
            Tried(src, qs + [q]) == Tried(src, qs) + Positions(Start(qs), Covered(qs) + |q.lits| + 1)
                                    + if 2 <= end && end + 12 <= |src| then [end - 2] else []
  {
    hide Follows, Positions, Start, Greedy, Tried, Covered;
    GreedyMore(src, qs, q);
    CoveredMore(qs, q);
    TriedMore(src, qs, q);
  }

  lemma {:induction false} GreedyMore(src: seq<byte>, qs: seq<Sequence>, q: Sequence)
    ensures Greedy(src, qs) && Follows(src, qs, q) ==> Greedy(src, qs + [q])
  {
    hide Follows;
    assert (qs + [q])[..|qs|] == qs;
  }

  lemma {:induction false} CoveredMore(qs: seq<Sequence>, q: Sequence)
    ensures Covered(qs + [q]) == Covered(qs) + |q.lits| + q.len
  {
    assert (qs + [q])[..|qs|] == qs;
  }

  lemma {:induction false} TriedMore(src: seq<byte>, qs: seq<Sequence>, q: Sequence)
    ensures var end := Covered(qs + [q]);
            Tried(src, qs + [q]) == Tried(src, qs) + Positions(Start(qs), Covered(qs) + |q.lits| + 1)
                                    + if 2 <= end && end + 12 <= |src| then [end - 2] else []
  {
    hide Covered, Start, Positions;
    var all := qs + [q];
    assert all != [] && all[..|all| - 1] == qs && all[|all| - 1] == q;
  }

  lemma StartBehind(qs: seq<Sequence>)
    requires qs != []
    ensures Start(qs) == Covered(qs)
  {
    hide Covered;
  }

  lemma LongEnough(src: seq<byte>, at: nat, ref: nat, len: nat)
    requires Longest(src, at, ref, len)
    ensures len >= 2
  {
  }

  lemma NothingEmitted(src: seq<byte>)
    ensures Emitted([], src, 0, [])
  {
  }

  lemma Finished(qs: seq<Sequence>, src: seq<byte>, anchor: nat, bytes: seq<byte>)
    requires Emitted(qs, src, anchor, bytes) && |src| <= U32_MAX
    ensures Encodes(bytes + LastBytes(src[anchor..]), src)
  {
    hide SequencesBytes, LastBytes;
    assert src[..anchor] + src[anchor..] == src;
  }

  lemma LastSize(lits: seq<byte>)
    ensures |LastBytes(lits)| == 1 + |Extension(|lits|)| + |lits| <= 1 + |lits| + if |lits| > 14 then |lits| / 255 + 1 else 0
  {
  }

  lemma JoinThree(s: seq<byte>, a: byte, b: seq<byte>, c: seq<byte>)
    ensures s + [a] + b + c == s + ([a] + (b + c))
  {
  }

  /** The last literals. */
  method EmitLast(dst: array<byte>, op0: nat, lits: seq<byte>) returns (n: nat)
    requires op0 <= dst.Length
    modifies dst
    ensures n <= dst.Length && (n > 0 ==> dst[..n] == old(dst[..op0]) + LastBytes(lits))
    ensures n > 0 <==> op0 + |lits| + 1 + (if |lits| > 14 then |lits| / 255 + 1 else 0) <= dst.Length
  {
    hide Extension;
    if |lits| > dst.Length - op0 || 1 + (if |lits| > 14 then |lits| / 255 + 1 else 0) > dst.Length - op0 - |lits| {
      return 0;
    }
    LastSize(lits);
    n := WriteByte(dst, op0, Head(|lits|, 0));
    n := WriteExtension(dst, n, |lits|);
    n := CopyLiterals(dst, n, lits);
    JoinThree(old(dst[..op0]), Head(|lits|, 0), Extension(|lits|), lits);
  }

  /** Compresses a text; 0 only for an empty buffer, a text of 4 GiB or more, or too small a buffer. */
  method Compress(src: seq<byte>, dst: array<byte>) returns (n: nat)
    modifies dst
    ensures n <= dst.Length && (n > 0 ==> Encodes(dst[..n], src))
    ensures n > 0 ==> exists qs :: Parses(src, qs, dst[..n])
    ensures |src| > U32_MAX || dst.Length == 0 ==> n == 0
    ensures |src| <= U32_MAX && dst.Length >= Bound(|src|) ==> n > 0
  {
    hide Emitted, Encodes, LastBytes, Parses, TableIs;
    if dst.Length < 1 || |src| > U32_MAX {
      return 0;
    }
    if src == [] {
      dst[0] := 0;
      EmptyText();
      assert dst[..1] == [0];
      return 1;
    }
    var anchor, op := 0, 0;
    ghost var qs: seq<Sequence> := [];
    NothingEmitted(src);
    assert dst[..0] == [];
    if |src| >= 13 {
      var htab := new nat[HASH_SIZE](_ => 0);
      TableStarts(htab[..], src);
      var ok;
      ok, anchor, op, qs := EmitSequences(src, dst, htab);
      if !ok {
        return 0;
      }
    }
    LastFits(qs, src, anchor, dst[..op]);
    Finished(qs, src, anchor, dst[..op]);
    ParsesAs(qs, src, anchor, dst[..op]);
    n := EmitLast(dst, op, src[anchor..]);
  }

  lemma ParsesAs(qs: seq<Sequence>, src: seq<byte>, anchor: nat, bytes: seq<byte>)
    requires Emitted(qs, src, anchor, bytes)
    requires if |src| >= 13 then Greedy(src, qs) && Exhausted(src, qs) && anchor == Covered(qs) else qs == [] && anchor == 0
    ensures Parses(src, qs, bytes + LastBytes(src[anchor..]))
  {
    hide Greedy, Exhausted, SequencesBytes, LastBytes;
  }

  lemma EmptyText()
    ensures Encodes([0], []) && Parses([], [], [0])
  {
    Finished([], [], 0, []);
    assert LastBytes([]) == [0];
  }

  lemma LastFits(qs: seq<Sequence>, src: seq<byte>, anchor: nat, bytes: seq<byte>)
    requires Emitted(qs, src, anchor, bytes)
    ensures anchor <= |src| && |bytes| + (|src| - anchor) + 2 + (|src| - anchor) / 255 <= Bound(|src|)
  {
  }

  // ----- the decompressor -----

  /** Adds up length bytes. */
  method GetExtension(src: seq<byte>, ip0: nat, base: nat) returns (ok: bool, n: nat, ip: nat)
    requires ip0 <= |src|
    ensures var r := ReadExtension(src[ip0..], base);
            if r.Got? then ok && n == r.value && ip == ip0 + r.pos <= |src| else !ok
  {
    n, ip := base, ip0;
    while true
      invariant ip0 <= ip <= |src|
      invariant var whole, r := ReadExtension(src[ip0..], base), ReadExtension(src[ip..], n);
                if r.Got? then whole == Got(r.value, r.pos + ip - ip0) else whole.Failed?
      decreases |src| - ip
    {
      if ip >= |src| {
        return false, n, ip;
      }
      var b := src[ip];
      assert src[ip..][1..] == src[ip + 1..];
      if n > SIZE_MAX - b {
        return false, n, ip;
      }
      n, ip := n + b, ip + 1;
      if b != 255 {
        return true, n, ip;
      }
    }
  }

  method GetLength(src: seq<byte>, ip0: nat, nibble: nat, least: nat) returns (ok: bool, n: nat, ip: nat)
    requires ip0 <= |src|
    ensures var r := ReadLength(src[ip0..], nibble, least);
            if r.Got? then ok && n == r.value && ip == ip0 + r.pos <= |src| else !ok
  {
    ok, n, ip := true, nibble + least, ip0;
    if nibble == 15 {
      ok, n, ip := GetExtension(src, ip0, 15 + least);
    }
  }

  /** Copies a match byte by byte, so that it may overlap itself. */
  method CopyMatch(dst: array<byte>, op: nat, offset: nat, len: nat)
    requires 1 <= offset <= op && op + len <= dst.Length
    modifies dst
    ensures dst[..op + len] == Copy(old(dst[..op]), offset, len)
  {
    hide Copy;
    ghost var whole := Copy(dst[..op], offset, len);
    for i := 0 to len
      invariant whole == Copy(dst[..op + i], offset, len - i)
    {
      CopyStep(dst[..op + i], offset, len - i);
      var at := WriteByte(dst, op + i, dst[op - offset + i]);
    }
    CopyNothing(dst[..op + len], offset);
  }

  /** The literals at a position, by cases. */
  lemma LiteralStep(src: seq<byte>, ip: nat, out: seq<byte>, cap: nat)
    requires ip < |src| && |out| <= cap
    ensures var d, r := Decode(src[ip..], out, cap), ReadLength(src[ip + 1..], src[ip] / 16, 0);
            if r.Failed? then d == None
            else
              var at := ip + 1 + r.pos;
              at <= |src| && if r.value > |src| - at || r.value > cap - |out| then d == None
              else
                var out1 := out + src[at..at + r.value];
                d == if at + r.value == |src| then Some(out1)
                     else DecodeMatch(src[ip] % 16, src[at + r.value..], out1, cap)
  {
    hide DecodeMatch, ReadLength;
    var s, r := src[ip..], ReadLength(src[ip + 1..], src[ip] / 16, 0);
    assert s[1..] == src[ip + 1..];
    if r.Got? {
      var at := ip + 1 + r.pos;
      assert s[1..][r.pos..] == src[at..];
      if r.value <= |src| - at {
        assert src[at..][..r.value] == src[at..at + r.value] && src[at..][r.value..] == src[at + r.value..];
      }
    }
  }

  lemma AtEnd(src: seq<byte>, out: seq<byte>, cap: nat)
    requires |out| <= cap
    ensures Decode(src[|src|..], out, cap) == Some(out) && src[0..] == src
  {
  }

  /** The output, or 0 for a malformed block or one that does not fit. */
  method Decompress(src: seq<byte>, dst: array<byte>) returns (n: nat)
    modifies dst
    ensures n <= dst.Length
    ensures var d := Decode(src, [], dst.Length); if d.Some? then dst[..n] == d.value else n == 0
  {
    hide Decode, DecodeMatch, Copy, ReadLength;
    var ip: nat, op: nat := 0, 0;
    ghost var d := Decode(src, [], dst.Length);
    AtEnd(src, [], dst.Length);
    assert dst[..0] == [];
    while ip < |src|
      invariant ip <= |src| && op <= dst.Length && d == Decode(src[ip..], dst[..op], dst.Length)
      decreases |src| - ip
    {
      LiteralStep(src, ip, dst[..op], dst.Length);
      var token := src[ip];
      var ok, lits, at := GetLength(src, ip + 1, token / 16, 0);
      if !ok || lits > |src| - at || lits > dst.Length - op {
        return 0;
      }
      op := CopyLiterals(dst, op, src[at..at + lits]);
      at := at + lits;
      if at >= |src| {
        return op;
      }
      ok, ip, op := OneMatch(src, dst, at, op, token % 16, d);
      if !ok {
        return 0;
      }
    }
    AtEnd(src, dst[..op], dst.Length);
    n := op;
  }

  /** The match after the literals. */
  method OneMatch(src: seq<byte>, dst: array<byte>, at: nat, op0: nat, nibble: nat, ghost d: Option<seq<byte>>)
    returns (ok: bool, ip: nat, op: nat)
    requires at < |src| && op0 <= dst.Length && d == DecodeMatch(nibble, src[at..], dst[..op0], dst.Length)
    modifies dst
    ensures if ok then at < ip <= |src| && op <= dst.Length && d == Decode(src[ip..], dst[..op], dst.Length) else d == None
  {
    hide Copy, ReadLength, Decode;
    op := op0;
    if |src| - at < 2 {
      return false, at, op;
    }
    var offset: nat := src[at] + 256 * (src[at + 1] as nat);
    if offset == 0 || op < offset {
      return false, at, op;
    }
    assert src[at..][2..] == src[at + 2..];
    var len;
    ok, len, ip := GetLength(src, at + 2, nibble, MIN_MATCH);
    if !ok || len > dst.Length - op {
      return false, at, op;
    }
    assert src[at + 2..][ip - (at + 2)..] == src[ip..];
    CopyMatch(dst, op, offset, len);
    op := op + len;
  }

  /** Compressing into a buffer of the bound and decompressing gives back every text below 4 GiB. */
  method CompressThenDecompress(text: seq<byte>) returns (ok: bool, back: seq<byte>)
    ensures ok <==> |text| <= U32_MAX
    ensures ok ==> back == text
  {
    var dst := new byte[Bound(|text|)];
    var n := Compress(text, dst);
    if n == 0 {
      return false, [];
    }
    RoundTrip(dst[..n], text, |text|);
    var out := new byte[|text|];
    var m := Decompress(dst[..n], out);
    return true, out[..m];
  }
}
