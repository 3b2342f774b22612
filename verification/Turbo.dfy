/** Method 80: an order-2 predictor. Every byte is either the predicted one, marked by a control bit, or stored. */
module Turbo {
  import opened ErrorCodes
  import opened BitStrings
  import opened BitIO
  import opened Checksum

  const TABLE_SIZE := 32768
  const BLOCK_SIZE := 25000
  const MAX_PACKED := 28125

  // ----- the predictor -----

  function Flip(b: byte): byte { if b % 2 == 0 then b + 1 else b - 1 }

  /** The older byte shifted by 7, exclusive-or the newer one: they share bit 7. */
  function Hash(pp: byte, p: byte): (h: nat)
    ensures h < TABLE_SIZE
  {
    128 * (if p < 128 then pp else Flip(pp)) + p % 128
  }

  /** The hash tells all pairs of bytes apart but those that differ in just the shared bit of both. */
  lemma HashIff(a: byte, b: byte, c: byte, d: byte)
    ensures Hash(a, b) == Hash(c, d) <==> (a == c && b == d) || (c == Flip(a) && b % 128 == d % 128 && b != d)
  {
  }

  /** What followed each pair of bytes last time, and the last two bytes. */
  datatype Predictor = Predictor(table: seq<byte>, pp: byte, p: byte)

  ghost predicate Ok(s: Predictor) { |s.table| == TABLE_SIZE }

  function Predicted(s: Predictor): byte
    requires Ok(s)
  {
    s.table[Hash(s.pp, s.p)]
  }

  function Advance(s: Predictor, c: byte): (s': Predictor)
    requires Ok(s)
    ensures Ok(s')
  {
    Predictor(s.table[Hash(s.pp, s.p) := c], s.p, c)
  }

  function After(s: Predictor, t: seq<byte>): (s': Predictor)
    requires Ok(s)
    ensures Ok(s')
  {
    if t == [] then s else Advance(After(s, t[..|t| - 1]), t[|t| - 1])
  }

  /** Which bytes are predicted. */
  function Hits(s: Predictor, t: seq<byte>): (b: seq<bool>)
    requires Ok(s)
    ensures |b| == |t|
  {
    if t == [] then [] else
      var n := |t| - 1;
      Hits(s, t[..n]) + [Predicted(After(s, t[..n])) == t[n]]
  }

  /** The others. */
  function Misses(s: Predictor, t: seq<byte>): (b: seq<byte>)
    requires Ok(s)
    ensures |b| <= |t|
  {
    if t == [] then [] else
      var n := |t| - 1;
      Misses(s, t[..n]) + if Predicted(After(s, t[..n])) == t[n] then [] else [t[n]]
  }

  lemma {:induction false} AfterConcat(s: Predictor, a: seq<byte>, b: seq<byte>)
    requires Ok(s)
    ensures After(s, a + b) == After(After(s, a), b)
  {
    if b == [] {
      assert a + b == a;
    } else {
      assert (a + b)[..|a + b| - 1] == a + b[..|b| - 1];
      AfterConcat(s, a, b[..|b| - 1]);
    }
  }

  lemma {:induction false} FirstAfter(s: Predictor, c: byte, t: seq<byte>)
    requires Ok(s)
    ensures After(s, [c] + t) == After(Advance(s, c), t)
  {
    AfterConcat(s, [c], t);
    assert [c][..0] == [];
  }

  /** The first byte of a group and the rest of it. */
  lemma {:induction false} FirstByte(s: Predictor, c: byte, t: seq<byte>)
    requires Ok(s)
    ensures var s1, hit := Advance(s, c), Predicted(s) == c;
            Hits(s, [c] + t) == [hit] + Hits(s1, t) && Misses(s, [c] + t) == (if hit then [] else [c]) + Misses(s1, t)
    decreases |t|
  {
    hide *;
    if t == [] {
      OneByte(s, c);
      NoBytes(Advance(s, c));
      assert [c] + t == [c];
    } else {
      var n := |t| - 1;
      var front, z := t[..n], t[n];
      assert t == front + [z] && [c] + t == ([c] + front) + [z];
      FirstByte(s, c, front);
      FirstAfter(s, c, front);
      LastByte(s, [c] + front, z);
      LastByte(Advance(s, c), front, z);
    }
  }

  lemma OneByte(s: Predictor, c: byte)
    requires Ok(s)
    ensures var hit := Predicted(s) == c; Hits(s, [c]) == [hit] && Misses(s, [c]) == if hit then [] else [c]
  {
    hide Advance, Predicted;
    assert [c][..0] == [];
  }

  lemma LastByte(s: Predictor, t: seq<byte>, z: byte)
    requires Ok(s)
    ensures var hit := Predicted(After(s, t)) == z;
            Hits(s, t + [z]) == Hits(s, t) + [hit] && Misses(s, t + [z]) == Misses(s, t) + if hit then [] else [z]
  {
    hide After, Advance, Predicted;
    assert (t + [z])[..|t|] == t;
  }

  lemma Regroup<T>(a: seq<T>, b: seq<T>, c: seq<T>)
    ensures a + b + c == a + (b + c)
  {
  }

  lemma NoBytes(s: Predictor)
    requires Ok(s)
    ensures After(s, []) == s && Hits(s, []) == [] && Misses(s, []) == []
  {
  }

  // ----- what the predictor knows -----

  /** The hash of the two bytes before position k, the two the predictor started with counted in front. */
  function HashBefore(s: Predictor, t: seq<byte>, k: nat): nat
    requires k <= |t|
  {
    var h := [s.pp, s.p] + t;
    Hash(h[k], h[k + 1])
  }

  /** Position k is the last one that follows a pair with hash x. */
  ghost predicate LastFollower(s: Predictor, t: seq<byte>, x: nat, k: int)
  {
    0 <= k < |t| && HashBefore(s, t, k) == x && forall j :: k < j < |t| ==> HashBefore(s, t, j) != x
  }

  ghost predicate NoFollower(s: Predictor, t: seq<byte>, x: nat)
  {
    forall j :: 0 <= j < |t| ==> HashBefore(s, t, j) != x
  }

  /** The last two bytes. */
  lemma {:induction false} LastTwo(s: Predictor, t: seq<byte>)
    requires Ok(s)
    ensures var h := [s.pp, s.p] + t; After(s, t).pp == h[|t|] && After(s, t).p == h[|t| + 1]
  {
    if t != [] {
      LastTwo(s, t[..|t| - 1]);
    }
  }

  lemma HashInFront(s: Predictor, t: seq<byte>, z: byte)
    ensures forall j :: 0 <= j <= |t| ==> HashBefore(s, t + [z], j) == HashBefore(s, t, j)
  {
    hide Hash;
  }

  lemma NextFollower(s: Predictor, t: seq<byte>, z: byte, x: nat)
    ensures HashBefore(s, t, |t|) == x ==> forall k :: LastFollower(s, t + [z], x, k) <==> k == |t|
    ensures HashBefore(s, t, |t|) != x ==> forall k :: LastFollower(s, t + [z], x, k) <==> LastFollower(s, t, x, k)
    ensures NoFollower(s, t + [z], x) <==> NoFollower(s, t, x) && HashBefore(s, t, |t|) != x
  {
    HashInFront(s, t, z);
    hide HashBefore;
    assert forall j :: 0 <= j < |t| ==> HashBefore(s, t + [z], j) == HashBefore(s, t, j);
    assert HashBefore(s, t + [z], |t|) == HashBefore(s, t, |t|);
  }

  lemma AfterNext(s: Predictor, t: seq<byte>, z: byte, x: nat)
    requires Ok(s) && x < TABLE_SIZE
    ensures After(s, t + [z]).table[x] == if HashBefore(s, t, |t|) == x then z else After(s, t).table[x]
    ensures Predicted(After(s, t)) == After(s, t).table[HashBefore(s, t, |t|)]
  {
    assert (t + [z])[..|t|] == t;
    LastTwo(s, t);
    hide Hash, After;
  }

  lemma NothingFollows(s: Predictor, x: nat)
    requires Ok(s)
    ensures (forall k :: !LastFollower(s, [], x, k)) && NoFollower(s, [], x) && After(s, []) == s
  {
  }

  /** The table holds the byte that last followed a pair with each hash, or what was there at the start. */
  lemma {:induction false} TableSays(s: Predictor, t: seq<byte>, x: nat)
    requires Ok(s) && x < TABLE_SIZE
    ensures forall k :: LastFollower(s, t, x, k) ==> 0 <= k < |t| && After(s, t).table[x] == t[k]
    ensures NoFollower(s, t, x) ==> After(s, t).table[x] == s.table[x]
  {
    hide After, LastFollower, NoFollower, HashBefore;
    FollowerIn(s, t, x);
    if t == [] {
      NothingFollows(s, x);
    } else {
      var front, z := t[..|t| - 1], t[|t| - 1];
      assert t == front + [z];
      FollowerIn(s, front, x);
      TableSays(s, front, x);
      NextFollower(s, front, z, x);
      AfterNext(s, front, z, x);
    }
  }

  lemma FollowerIn(s: Predictor, t: seq<byte>, x: nat)
    ensures forall k :: LastFollower(s, t, x, k) ==> 0 <= k < |t|
  {
  }

  lemma {:induction false} SomeFollower(s: Predictor, t: seq<byte>, x: nat)
    ensures NoFollower(s, t, x) || exists k :: LastFollower(s, t, x, k)
  {
    hide LastFollower, NoFollower, HashBefore;
    if t == [] {
      NothingAtAll(s, x);
    } else {
      var front, z := t[..|t| - 1], t[|t| - 1];
      assert t == front + [z];
      SomeFollower(s, front, x);
      NextFollower(s, front, z, x);
      assert HashBefore(s, front, |front|) == x ==> LastFollower(s, t, x, |front|);
    }
  }

  lemma NothingAtAll(s: Predictor, x: nat)
    ensures NoFollower(s, [], x)
  {
  }

  /** The byte z after t repeats what last followed its pair, as far as the hash can tell pairs apart. */
  ghost predicate Foretold(s: Predictor, t: seq<byte>, z: byte)
    requires Ok(s)
  {
    var x := HashBefore(s, t, |t|);
    (exists j :: LastFollower(s, t, x, j) && t[j] == z) || (NoFollower(s, t, x) && s.table[x] == z)
  }

  lemma PredictedIff(s: Predictor, t: seq<byte>, z: byte)
    requires Ok(s)
    ensures Predicted(After(s, t)) == z <==> Foretold(s, t, z)
  {
    hide After, Predicted, HashBefore, LastFollower, NoFollower;
    var x := HashBefore(s, t, |t|);
    HashSmall(s, t);
    AfterNext(s, t, z, x);
    FollowerIn(s, t, x);
    TableSays(s, t, x);
    SomeFollower(s, t, x);
    NotBoth(s, t, x);
  }

  lemma HashSmall(s: Predictor, t: seq<byte>)
    ensures HashBefore(s, t, |t|) < TABLE_SIZE
  {
    hide Hash;
  }

  lemma NotBoth(s: Predictor, t: seq<byte>, x: nat)
    ensures NoFollower(s, t, x) ==> forall k :: !LastFollower(s, t, x, k)
  {
    hide HashBefore;
  }

  /** Exactly the bytes that repeat what last followed their pair are predicted. */
  lemma {:induction false} HitsIff(s: Predictor, t: seq<byte>, k: nat)
    requires Ok(s) && k < |t|
    ensures Hits(s, t)[k] <==> Foretold(s, t[..k], t[k])
  {
    hide After, Predicted, Foretold;
    var n := |t| - 1;
    if k < n {
      HitsIff(s, t[..n], k);
      assert t[..n][..k] == t[..k];
    } else {
      PredictedIff(s, t[..n], t[n]);
    }
  }

  // ----- the format -----

  /** The control byte: one bit for each byte of the group, from the top. */
  function Control(hits: seq<bool>): (c: byte)
    requires |hits| <= 8
  {
    ControlFits(hits);
    Val(hits) * Pow2(8 - |hits|)
  }

  lemma ControlFits(hits: seq<bool>)
    requires |hits| <= 8
    ensures Val(hits) * Pow2(8 - |hits|) < 256
  {
    var k := 8 - |hits|;
    ValBound(hits);
    Pow2Add(|hits|, k);
    Pow2Values();
    MulLe(Val(hits) + 1, Pow2(|hits|), Pow2(k));
    MulAddLeft(Val(hits), 1, Pow2(k));
  }

  /** Shifting the control byte takes its first bit off. */
  lemma ControlShift(hits: seq<bool>)
    requires 0 < |hits| <= 8
    ensures Control(hits) >= 128 <==> hits[0]
    ensures (Control(hits) as nat) * 2 % 256 == Control(hits[1..])
  {
    hide Val, Pow2;
    var rest, k := hits[1..], 8 - |hits|;
    assert hits == [hits[0]] + rest;
    ValConcat([hits[0]], rest);
    OneBitValue(hits[0]);
    ControlFits(rest);
    Pow2Add(|rest|, k);
    SmallPowers(k);
    ShiftArithmetic(Bit(hits[0]), Val(rest), Pow2(|rest|), Pow2(k));
  }

  lemma OneBitValue(b: bool)
    ensures Val([b]) == Bit(b) <= 1
  {
    assert [b][..0] == [];
  }

  lemma SmallPowers(k: nat)
    ensures Pow2(7) == 128 && Pow2(k + 1) == 2 * Pow2(k)
  {
  }

  lemma ShiftArithmetic(h: nat, v: nat, p: nat, k: nat)
    requires h <= 1 && p * k == 128 && v * (2 * k) < 256
    ensures (h * p + v) * k == 128 * h + v * k && v * k < 128 && (128 * h + v * k) * 2 % 256 == v * (2 * k)
  {
    MulAddLeft(h * p, v, k);
    MulAssoc(h, p, k);
    assert v * (2 * k) == 2 * (v * k);
  }

  function Smaller(a: nat, b: nat): nat { if a < b then a else b }

  function GroupBytes(s: Predictor, g: seq<byte>): seq<byte>
    requires Ok(s) && |g| <= 8
  {
    [Control(Hits(s, g))] + Misses(s, g)
  }

  /** A block: groups of eight bytes, the last of which may be shorter without saying so. */
  function BlockBytes(s: Predictor, t: seq<byte>): (b: seq<byte>)
    requires Ok(s)
    ensures |b| <= |t| + (|t| + 7) / 8 && (t != [] ==> b != [])
    decreases |t|
  {
    if t == [] then []
    else
      var k := Smaller(8, |t|);
      GroupBytes(s, t[..k]) + BlockBytes(After(s, t[..k]), t[k..])
  }

  ghost predicate BlocksOk(blocks: seq<seq<byte>>)
  {
    forall k :: 0 <= k < |blocks| ==> 1 <= |blocks[k]| <= BLOCK_SIZE
  }

  function Joined(blocks: seq<seq<byte>>): seq<byte>
  {
    if blocks == [] then [] else Joined(blocks[..|blocks| - 1]) + blocks[|blocks| - 1]
  }

  function PackedBlock(s: Predictor, t: seq<byte>): seq<byte>
    requires Ok(s) && |t| <= BLOCK_SIZE
  {
    var b := BlockBytes(s, t);
    [|b| % 256, |b| / 256] + b
  }

  function PackedBlocks(s: Predictor, blocks: seq<seq<byte>>): seq<byte>
    requires Ok(s) && BlocksOk(blocks)
  {
    if blocks == [] then []
    else
      var n := |blocks| - 1;
      PackedBlocks(s, blocks[..n]) + PackedBlock(After(s, Joined(blocks[..n])), blocks[n])
  }

  // ----- what a stream means -----

  datatype Run = Went(s: Predictor, out: seq<byte>, rest: seq<byte>) | Broken

  /** At most n bytes of a group; it also ends when input and control bits are both used up. */
  function DecodeGroup(s: Predictor, control: nat, input: seq<byte>, n: nat, room: nat, out: seq<byte>): (r: Run)
    requires Ok(s) && |out| <= room
    ensures r.Went? ==> Ok(r.s) && out <= r.out && |r.out| <= room && |r.rest| <= |input|
    decreases n
  {
    if n == 0 || (input == [] && control == 0) then Went(s, out, input)
    else if control < 128 && input == [] then Broken
    else if |out| == room then Broken
    else
      var c := if control < 128 then input[0] else Predicted(s);
      DecodeGroup(Advance(s, c), control * 2 % 256, if control < 128 then input[1..] else input, n - 1, room, out + [c])
  }

  function DecodeBlock(s: Predictor, input: seq<byte>, room: nat, out: seq<byte>): (r: Run)
    requires Ok(s) && |out| <= room
    ensures r.Went? ==> Ok(r.s) && out <= r.out && |r.out| <= room
    decreases |input|
  {
    if input == [] then Went(s, out, [])
    else
      var r := DecodeGroup(s, input[0], input[1..], 8, room, out);
      if r.Broken? then Broken else DecodeBlock(r.s, r.rest, room, r.out)
  }

  datatype Unpacking = Unpacking(code: int, out: seq<byte>)

  /** Blocks until an empty one; limit bounds what is still to be written. */
  function DecodeStream(s: Predictor, bytes: seq<byte>, limit: nat, out: seq<byte>): (r: Unpacking)
    requires Ok(s)
    ensures out <= r.out && |r.out| <= |out| + limit && r.code <= 0
    decreases |bytes|
  {
    if |bytes| < 2 then Unpacking(TRUNCATED, out)
    else
      var count: nat := bytes[0] + 256 * (bytes[1] as nat);
      if count == 0 then Unpacking(0, out)
      else if count > MAX_PACKED then Unpacking(DAMAGED, out)
      else if |bytes| - 2 < count then Unpacking(TRUNCATED, out)
      else
        var r := DecodeBlock(s, bytes[2..2 + count], Smaller(BLOCK_SIZE, limit), []);
        if r.Broken? || r.out == [] then Unpacking(DAMAGED, out)
        else DecodeStream(r.s, bytes[2 + count..], limit - |r.out|, out + r.out)
  }

  // ----- reading back -----

  /** One byte of a group. */
  lemma GroupStep(s: Predictor, control: byte, input: seq<byte>, n: nat, room: nat, out: seq<byte>, c: byte, rest: seq<byte>)
    requires Ok(s) && n > 0 && |out| < room
    requires if control >= 128 then c == Predicted(s) && rest == input else input == [c] + rest
    ensures DecodeGroup(s, control, input, n, room, out)
            == DecodeGroup(Advance(s, c), (control as nat) * 2 % 256, rest, n - 1, room, out + [c])
  {
    hide Advance, Predicted;
    if control < 128 {
      assert input[1..] == rest;
    }
  }

  lemma NoGroup(s: Predictor, n: nat, rest: seq<byte>, room: nat, out: seq<byte>)
    requires Ok(s) && |out| <= room && (n == 0 || rest == [])
    ensures DecodeGroup(s, Control(Hits(s, [])), Misses(s, []) + rest, n, room, out) == Went(After(s, []), out + [], rest)
  {
    assert Control([]) == 0 && [] + rest == rest && out + [] == out;
  }

  /** A group is read back: with something behind it only if it is full. */
  lemma {:induction false} GroupBack(s: Predictor, g: seq<byte>, rest: seq<byte>, n: nat, room: nat, out: seq<byte>)
    requires Ok(s) && |g| <= n <= 8 && |out| + |g| <= room && (|g| == n || rest == [])
    ensures DecodeGroup(s, Control(Hits(s, g)), Misses(s, g) + rest, n, room, out) == Went(After(s, g), out + g, rest)
    decreases |g|
  {
    hide DecodeGroup, After, Hits, Misses, Control, Advance, Predicted, Val, Pow2, Hash;
    if g == [] {
      NoGroup(s, n, rest, room, out);
    } else {
      var hits, s1, t := Hits(s, g), Advance(s, g[0]), g[1..];
      assert g == [g[0]] + t;
      FirstByte(s, g[0], t);
      FirstAfter(s, g[0], t);
      ControlShift(hits);
      assert hits[0] == (Predicted(s) == g[0]) && hits[1..] == Hits(s1, t);
      FirstRest(Misses(s, g), Misses(s1, t), g[0], hits[0], rest);
      GroupStep(s, Control(hits), Misses(s, g) + rest, n, room, out, g[0], Misses(s1, t) + rest);
      GroupBack(s1, t, rest, n - 1, room, out + [g[0]]);
      assert out + [g[0]] + t == out + g;
    }
  }

  lemma FirstRest(all: seq<byte>, some: seq<byte>, c: byte, hit: bool, rest: seq<byte>)
    requires all == (if hit then [] else [c]) + some
    ensures all + rest == if hit then some + rest else [c] + (some + rest)
  {
  }

  lemma BlockStep(s: Predictor, t: seq<byte>, k: nat, room: nat, out: seq<byte>)
    requires Ok(s) && k == Smaller(8, |t|) && t != [] && |out| + |t| <= room
    ensures var s1 := After(s, t[..k]);
            DecodeBlock(s, BlockBytes(s, t), room, out) == DecodeBlock(s1, BlockBytes(s1, t[k..]), room, out + t[..k])
  {
    hide DecodeGroup, After, Hits, Misses, Control;
    var g, u := t[..k], t[k..];
    var rest := BlockBytes(After(s, g), u);
    assert BlockBytes(s, t) == [Control(Hits(s, g))] + (Misses(s, g) + rest);
    GroupBack(s, g, rest, 8, room, out);
  }

  /** The end of the last group is found although its length is not stored. */
  lemma {:induction false} BlockBack(s: Predictor, t: seq<byte>, room: nat, out: seq<byte>)
    requires Ok(s) && |out| + |t| <= room
    ensures DecodeBlock(s, BlockBytes(s, t), room, out) == Went(After(s, t), out + t, [])
    decreases |t|
  {
    if t == [] {
      assert out + [] == out;
    } else {
      var k := Smaller(8, |t|);
      assert 0 < k <= |t|;
      hide *;
      var g, u := t[..k], t[k..];
      var s1 := After(s, g);
      BlockStep(s, t, k, room, out);
      assert Ok(s1) && |out + g| + |u| <= room;
      BlockBack(s1, u, room, out + g);
      CutJoin(t, k, out);
      AfterConcat(s, g, u);
    }
  }

  lemma CutJoin(t: seq<byte>, k: nat, out: seq<byte>)
    requires k <= |t|
    ensures t == t[..k] + t[k..] && out + t[..k] + t[k..] == out + t
  {
  }

  lemma PackedSize(s: Predictor, t: seq<byte>)
    requires Ok(s) && 1 <= |t| <= BLOCK_SIZE
    ensures 1 <= |BlockBytes(s, t)| <= MAX_PACKED
  {
  }

  lemma StreamStep(s: Predictor, t: seq<byte>, rest: seq<byte>, limit: nat, out: seq<byte>)
    requires Ok(s) && 1 <= |t| <= BLOCK_SIZE && |t| <= limit
    ensures DecodeStream(s, PackedBlock(s, t) + rest, limit, out) == DecodeStream(After(s, t), rest, limit - |t|, out + t)
  {
    hide DecodeBlock, BlockBytes, After;
    var b := BlockBytes(s, t);
    PackedSize(s, t);
    BlockBack(s, t, Smaller(BLOCK_SIZE, limit), []);
    assert [] + t == t;
    var bytes := PackedBlock(s, t) + rest;
    assert bytes[2..2 + |b|] == b && bytes[2 + |b|..] == rest;
    HeaderDigits(|b|);
  }

  lemma HeaderDigits(n: nat)
    requires n < 65536
    ensures n % 256 + 256 * (n / 256) == n && n / 256 < 256
  {
  }

  /** The predictors stay in step over any number of blocks. */
  lemma {:induction false} StreamBack(s: Predictor, blocks: seq<seq<byte>>, rest: seq<byte>, limit: nat, out: seq<byte>)
    requires Ok(s) && BlocksOk(blocks) && |Joined(blocks)| <= limit
    ensures DecodeStream(s, PackedBlocks(s, blocks) + rest, limit, out)
            == DecodeStream(After(s, Joined(blocks)), rest, limit - |Joined(blocks)|, out + Joined(blocks))
  {
    hide *;
    if blocks == [] {
      NoBlocks(s, rest, limit, out);
    } else {
      var n := |blocks| - 1;
      var front, last := blocks[..n], blocks[n];
      LastBlock(s, blocks);
      var joined := Joined(front);
      var s1 := After(s, joined);
      var bytes := PackedBlock(s1, last);
      StreamBack(s, front, bytes + rest, limit, out);
      StreamStep(s1, last, rest, limit - |joined|, out + joined);
      Regroup(PackedBlocks(s, front), bytes, rest);
      Regroup(out, joined, last);
    }
  }

  lemma NoBlocks(s: Predictor, rest: seq<byte>, limit: nat, out: seq<byte>)
    requires Ok(s)
    ensures BlocksOk([]) && Joined([]) == []
    ensures DecodeStream(s, PackedBlocks(s, []) + rest, limit, out) == DecodeStream(After(s, []), rest, limit, out + [])
  {
    assert [] + rest == rest && out + [] == out;
  }

  lemma LastBlock(s: Predictor, blocks: seq<seq<byte>>)
    requires Ok(s) && BlocksOk(blocks) && blocks != []
    ensures var n := |blocks| - 1;
            var front, last := blocks[..n], blocks[n];
            var s1 := After(s, Joined(front));
            && BlocksOk(front) && 1 <= |last| <= BLOCK_SIZE && Joined(blocks) == Joined(front) + last && Ok(s1)
            && PackedBlocks(s, blocks) == PackedBlocks(s, front) + PackedBlock(s1, last)
            && After(s, Joined(blocks)) == After(s1, last)
  {
    hide After, PackedBlock;
    var n := |blocks| - 1;
    AfterConcat(s, Joined(blocks[..n]), blocks[n]);
  }

  /** A whole stream gives back its text under any limit that holds it, whatever follows the stream. */
  lemma RoundTrip(s: Predictor, blocks: seq<seq<byte>>, rest: seq<byte>, limit: nat)
    requires Ok(s) && BlocksOk(blocks) && |Joined(blocks)| <= limit
    ensures DecodeStream(s, PackedBlocks(s, blocks) + ([0, 0] + rest), limit, []) == Unpacking(0, Joined(blocks))
  {
    StreamBack(s, blocks, [0, 0] + rest, limit, []);
    assert [] + Joined(blocks) == Joined(blocks);
  }

  // ----- the predictor in memory -----

  function EmptyTable(): (t: seq<byte>)
    ensures |t| == TABLE_SIZE && forall x :: 0 <= x < TABLE_SIZE ==> t[x] == 0
  {
    seq(TABLE_SIZE, _ => 0)
  }

  function LoadedTable(dict: seq<byte>, k: nat): (t: seq<byte>)
    requires k == 0 || k + 10 <= |dict|
    ensures |t| == TABLE_SIZE
  {
    if k == 0 then EmptyTable() else LoadedTable(dict, k - 1)[Hash(dict[k - 1], dict[k]) := dict[k + 1]]
  }

  lemma LearnOne(s: Predictor, t: seq<byte>, z: byte)
    requires Ok(s)
    ensures After(s, t + [z]).table == After(s, t).table[HashBefore(s, t, |t|) := z]
  {
    assert (t + [z])[..|t|] == t;
    LastTwo(s, t);
  }

  lemma PairInDict(s: Predictor, dict: seq<byte>, k: nat)
    requires 0 < k && k + 10 <= |dict| && s.pp == dict[0] && s.p == dict[1]
    ensures HashBefore(s, dict[2..k + 1], k - 1) == Hash(dict[k - 1], dict[k])
  {
    hide Hash;
  }

  /** That is what a predictor learns from the dictionary, but for its last bytes, when its first two bytes are given. */
  lemma {:induction false} LoadedLearns(dict: seq<byte>, k: nat)
    requires |dict| >= 2 && (k == 0 || k + 10 <= |dict|)
    ensures LoadedTable(dict, k) == After(Predictor(EmptyTable(), dict[0], dict[1]), dict[2..k + 2]).table
  {
    hide Hash, HashBefore, After, EmptyTable;
    var s := Predictor(EmptyTable(), dict[0], dict[1]);
    if k == 0 {
      NoBytes(s);
      assert dict[2..2] == [];
    } else {
      LoadedLearns(dict, k - 1);
      var t := dict[2..k + 1];
      assert dict[2..k + 2] == t + [dict[k + 1]];
      LearnOne(s, t, dict[k + 1]);
      PairInDict(s, dict, k);
    }
  }

  /** The predictor both sides start with: it has seen the dictionary, but for its last bytes. */
  function Loaded(dict: seq<byte>): (s: Predictor)
    ensures Ok(s)
  {
    Predictor(LoadedTable(dict, if |dict| > 10 then |dict| - 10 else 0), 0, 0)
  }

  class Model {
    const table: array<byte>
    var pp: byte
    var p: byte

    ghost function Value(): (s: Predictor)
      reads this, table
    {
      Predictor(table[..], pp, p)
    }

    ghost predicate Valid() { table.Length == TABLE_SIZE }

    constructor (dict: seq<byte>)
      ensures Valid() && Value() == Loaded(dict) && fresh(table)
    {
      table := new byte[TABLE_SIZE](_ => 0);
      pp, p := 0, 0;
      new;
      assert table[..] == LoadedTable(dict, 0);
      var i := 0;
      while i + 10 < |dict|
        invariant i == 0 || i + 10 <= |dict|
        invariant table[..] == LoadedTable(dict, i) && pp == 0 && p == 0
      {
        table[Hash(dict[i], dict[i + 1])] := dict[i + 2];
        i := i + 1;
      }
    }

    /** One byte of the text: whether it was predicted; otherwise it is remembered. */
    method Pass(c: byte) returns (hit: bool)
      requires Valid()
      modifies this, table
      ensures hit == (Predicted(old(Value())) == c) && Value() == Advance(old(Value()), c)
    {
      var h := Hash(pp, p);
      hit := c == table[h];
      if !hit {
        table[h] := c;
      }
      pp, p := p, c;
    }

    /** The predicted byte. */
    method Guess() returns (c: byte)
      requires Valid()
      ensures c == Predicted(Value())
    {
      c := table[Hash(pp, p)];
    }
  }

  // ----- the compressor -----

  lemma NextHit(s: Predictor, g: seq<byte>, j: nat)
    requires Ok(s) && j < |g|
    ensures var c := Predicted(After(s, g[..j])) == g[j];
            && After(s, g[..j + 1]) == Advance(After(s, g[..j]), g[j])
            && Hits(s, g[..j + 1]) == Hits(s, g[..j]) + [c]
            && Misses(s, g[..j + 1]) == Misses(s, g[..j]) + if c then [] else [g[j]]
  {
    assert g[..j + 1][..j] == g[..j];
  }

  /** The bit of the next byte goes below those already set. */
  lemma ControlMore(hits: seq<bool>, hit: bool)
    requires |hits| < 8
    ensures Control(hits + [hit]) == Control(hits) + if hit then Pow2(7 - |hits|) else 0
  {
    hide Val, Pow2;
    var k := 7 - |hits|;
    ValAppend(hits, hit);
    ControlFits(hits + [hit]);
    PowerTwice(k);
    AppendBit(Val(hits), hit, Pow2(k));
  }

  lemma AppendBit(v: nat, hit: bool, p: nat)
    ensures (2 * v + Bit(hit)) * p == v * (2 * p) + if hit then p else 0
  {
    MulAddLeft(2 * v, Bit(hit), p);
    MulAssoc(v, 2, p);
  }

  /** Packs up to eight bytes. */
  method PackGroup(m: Model, g: seq<byte>, out: array<byte>, at: nat) returns (n: nat)
    requires m.Valid() && |g| <= 8 && at + 1 + |g| <= out.Length && out != m.table
    modifies m, m.table, out
    ensures n <= out.Length && out[..n] == old(out[..at]) + GroupBytes(old(m.Value()), g)
    ensures m.Value() == After(old(m.Value()), g)
  {
    hide After, Hits, Misses, Control, Advance, Predicted;
    ghost var s := m.Value();
    out[at] := 0;
    n := at + 1;
    NothingPacked(s);
    assert g[..0] == [];
    for j := 0 to |g|
      invariant at + 1 <= n <= at + 1 + j && m.Value() == After(s, g[..j])
      invariant out[..at] == old(out[..at]) && out[at] == Control(Hits(s, g[..j])) && out[at + 1..n] == Misses(s, g[..j])
    {
      NextHit(s, g, j);
      var hit := m.Pass(g[j]);
      ControlMore(Hits(s, g[..j]), hit);
      ghost var misses := out[at + 1..n];
      if hit {
        out[at] := out[at] + Pow2(7 - j);
        assert out[at + 1..n] == misses;
      } else {
        out[n] := g[j];
        n := n + 1;
        assert out[at + 1..n] == misses + [g[j]];
      }
    }
    assert g[..|g|] == g;
    assert out[..n] == out[..at] + ([out[at]] + out[at + 1..n]);
  }

  lemma NothingPacked(s: Predictor)
    requires Ok(s)
    ensures After(s, []) == s && Misses(s, []) == [] && Control(Hits(s, [])) == 0
  {
  }

  lemma BlockParts(s: Predictor, data: seq<byte>, i: nat)
    requires Ok(s) && i < |data|
    ensures var k := Smaller(8, |data| - i);
            var s1 := After(s, data[i..i + k]);
            && BlockBytes(s, data[i..]) == GroupBytes(s, data[i..i + k]) + BlockBytes(s1, data[i + k..])
            && After(s, data[i..]) == After(s1, data[i + k..])
  {
    hide After, Hits, Misses, Control;
    var k := Smaller(8, |data| - i);
    assert data[i..][..k] == data[i..i + k] && data[i..][k..] == data[i + k..];
    assert data[i..] == data[i..i + k] + data[i + k..];
    AfterConcat(s, data[i..i + k], data[i + k..]);
  }

  /** One control byte for eight bytes of text. */
  predicate InRoom(i: nat, n: nat) { n <= i + (i + 7) / 8 && n <= MAX_PACKED }

  lemma NoRoomTaken()
    ensures InRoom(0, 0)
  {
  }

  lemma GroupRoom(i: nat, k: nat, n: nat)
    requires i % 8 == 0 && 1 <= k <= 8 && i + k <= BLOCK_SIZE && InRoom(i, n)
    ensures n + 1 + k <= MAX_PACKED && (k == 8 ==> (i + k) % 8 == 0)
  {
  }

  lemma RoomAfter(i: nat, k: nat, n: nat, n': nat)
    requires i % 8 == 0 && 1 <= k <= 8 && i + k <= BLOCK_SIZE && InRoom(i, n) && n' <= n + 1 + k
    ensures InRoom(i + k, n')
  {
  }

  /** Packs one block. */
  method PackBlock(m: Model, data: seq<byte>, out: array<byte>) returns (n: nat)
    requires m.Valid() && |data| <= BLOCK_SIZE && out.Length == MAX_PACKED && out != m.table
    modifies m, m.table, out
    ensures n <= out.Length && out[..n] == BlockBytes(old(m.Value()), data) && m.Value() == After(old(m.Value()), data)
  {
    hide After, BlockBytes, GroupBytes, InRoom;
    ghost var s := m.Value();
    n := 0;
    NoRoomTaken();
    var i := 0;
    BlockEnds(s, data);
    while i < |data|
      invariant i <= |data| && (i % 8 == 0 || i == |data|) && n <= MAX_PACKED && InRoom(i, n)
      invariant out[..n] + BlockBytes(m.Value(), data[i..]) == BlockBytes(s, data)
      invariant After(m.Value(), data[i..]) == After(s, data)
    {
      ghost var s1, before := m.Value(), out[..n];
      var k := if |data| - i < 8 then |data| - i else 8;
      BlockParts(s1, data, i);
      GroupRoom(i, k, n);
      var at := n;
      n := PackGroup(m, data[i..i + k], out, at);
      GroupSize(s1, data[i..i + k]);
      RoomAfter(i, k, at, n);
      Regroup(before, GroupBytes(s1, data[i..i + k]), BlockBytes(m.Value(), data[i + k..]));
      i := i + k;
    }
    BlockEnds(m.Value(), data);
    assert out[..n] + [] == out[..n];
  }

  lemma BlockEnds(s: Predictor, data: seq<byte>)
    requires Ok(s)
    ensures BlockBytes(s, data[|data|..]) == [] && After(s, data[|data|..]) == s && data[0..] == data
    ensures forall b: seq<byte> :: [] + b == b
  {
  }

  lemma GroupSize(s: Predictor, g: seq<byte>)
    requires Ok(s) && |g| <= 8
    ensures |GroupBytes(s, g)| <= |g| + 1
  {
  }

  /** Packs all input, one block for each read, and the empty block that ends the stream. */
  method Compress(dict: seq<byte>, src: ByteSource) returns (sink: seq<byte>, ghost blocks: seq<seq<byte>>)
    requires src.pos <= |src.data|
    modifies src
    ensures BlocksOk(blocks) && Joined(blocks) == src.data[old(src.pos)..]
    ensures sink == PackedBlocks(Loaded(dict), blocks) + [0, 0]
  {
    hide After, BlockBytes, PackedBlock, PackedBlocks, Joined, BlocksOk, Loaded;
    var m := new Model(dict);
    var out := new byte[MAX_PACKED];
    sink, blocks := [], [];
    ghost var s := m.Value();
    NothingJoined(s);
    while true
      invariant old(src.pos) <= src.pos <= |src.data| && BlocksOk(blocks) && m.Valid() && fresh(m.table) && fresh(out) && out != m.table
      invariant Joined(blocks) == src.data[old(src.pos)..src.pos] && m.Value() == After(s, Joined(blocks))
      invariant sink == PackedBlocks(s, blocks)
      decreases |src.data| - src.pos
    {
      var data := src.Read(BLOCK_SIZE);
      if data == [] {
        break;
      }
      ghost var s1 := m.Value();
      var n := PackBlock(m, data, out);
      MoreBlocks(s, blocks, data);
      PackedIs(s1, data, sink);
      sink := sink + [n % 256, n / 256] + out[..n];
      blocks := blocks + [data];
    }
    sink := sink + [0, 0];
  }

  lemma NothingJoined(s: Predictor)
    requires Ok(s)
    ensures BlocksOk([]) && Joined([]) == [] && After(s, []) == s && PackedBlocks(s, []) == []
  {
  }

  lemma PackedIs(s: Predictor, data: seq<byte>, sink: seq<byte>)
    requires Ok(s) && 1 <= |data| <= BLOCK_SIZE
    ensures var b := BlockBytes(s, data);
            |b| <= MAX_PACKED && sink + [|b| % 256, |b| / 256] + b == sink + PackedBlock(s, data)
  {
    hide BlockBytes;
    PackedSize(s, data);
  }

  lemma MoreBlocks(s: Predictor, blocks: seq<seq<byte>>, data: seq<byte>)
    requires Ok(s) && BlocksOk(blocks) && 1 <= |data| <= BLOCK_SIZE
    ensures var all := blocks + [data];
            && BlocksOk(all) && Joined(all) == Joined(blocks) + data
            && After(s, Joined(all)) == After(After(s, Joined(blocks)), data)
            && PackedBlocks(s, all) == PackedBlocks(s, blocks) + PackedBlock(After(s, Joined(blocks)), data)
  {
    hide After, PackedBlock;
    var all := blocks + [data];
    assert all[..|all| - 1] == blocks;
    AfterConcat(s, Joined(blocks), data);
  }

  // ----- the decompressor -----

  /** Reads exactly size bytes, in as many reads as it takes. */
  method ReadAll(src: ByteSource, size: nat) returns (ok: bool, bytes: seq<byte>)
    requires src.pos <= |src.data|
    modifies src
    ensures old(src.pos) <= src.pos <= |src.data| && (ok <==> |src.data| - old(src.pos) >= size)
    ensures ok ==> src.pos == old(src.pos) + size && bytes == src.data[old(src.pos)..src.pos]
  {
    bytes := [];
    while |bytes| < size
      invariant old(src.pos) <= src.pos <= |src.data| && |bytes| <= size
      invariant bytes == src.data[old(src.pos)..src.pos]
      decreases size - |bytes|
    {
      var piece := src.Read(size - |bytes|);
      if piece == [] {
        return false, bytes;
      }
      bytes := bytes + piece;
    }
    ok := true;
  }

  /** Up to eight bytes, as the control byte says. */
  method UnpackGroup(m: Model, control0: byte, input: seq<byte>, pos0: nat, room: nat, output: array<byte>, n0: nat)
    returns (ok: bool, pos: nat, n: nat)
    requires m.Valid() && pos0 <= |input| && n0 <= room <= output.Length && output != m.table
    modifies m, m.table, output
    ensures var r := DecodeGroup(old(m.Value()), control0, input[pos0..], 8, room, old(output[..n0]));
            if r.Broken? then !ok
            else ok && pos0 <= pos <= |input| && n <= room && r == Went(m.Value(), output[..n], input[pos..])
  {
    hide Advance, Predicted, DecodeGroup;
    var control: byte := control0;
    pos, n := pos0, n0;
    ghost var r := DecodeGroup(m.Value(), control0, input[pos0..], 8, room, output[..n0]);
    for bit := 0 to 8
      invariant pos0 <= pos <= |input| && n <= room
      invariant r == DecodeGroup(m.Value(), control, input[pos..], 8 - bit, room, output[..n])
    {
      GroupEnds(m.Value(), control, input[pos..], 8 - bit, room, output[..n]);
      ghost var s1, before, tail := m.Value(), output[..n], input[pos..];
      if pos == |input| && control == 0 {
        return true, pos, n;
      }
      var c: byte;
      if control < 128 {
        if pos == |input| {
          return false, pos, n;
        }
        c := input[pos];
        assert tail == [c] + input[pos + 1..];
        pos := pos + 1;
      } else {
        c := m.Guess();
      }
      if n == room {
        return false, pos, n;
      }
      GroupStep(s1, control, tail, 8 - bit, room, before, c, input[pos..]);
      var hit := m.Pass(c);
      output[n] := c;
      n := n + 1;
      assert output[..n] == before + [c];
      control := (control as nat) * 2 % 256;
    }
    GroupEnds(m.Value(), control, input[pos..], 0, room, output[..n]);
    ok := true;
  }

  lemma GroupEnds(s: Predictor, control: byte, input: seq<byte>, n: nat, room: nat, out: seq<byte>)
    requires Ok(s) && |out| <= room
    ensures n == 0 || (input == [] && control == 0) ==> DecodeGroup(s, control, input, n, room, out) == Went(s, out, input)
    ensures n > 0 && control < 128 && input == [] && control != 0 ==> DecodeGroup(s, control, input, n, room, out) == Broken
    ensures n > 0 && !(input == [] && control == 0) && |out| == room ==> DecodeGroup(s, control, input, n, room, out) == Broken
  {
  }

  /** One block into the output buffer. */
  method UnpackBlock(m: Model, input: seq<byte>, room: nat, output: array<byte>) returns (ok: bool, n: nat)
    requires m.Valid() && room <= output.Length && output != m.table
    modifies m, m.table, output
    ensures var r := DecodeBlock(old(m.Value()), input, room, []);
            if r.Broken? then !ok else ok && n <= room && r == Went(m.Value(), output[..n], [])
  {
    hide DecodeGroup;
    var pos := 0;
    n := 0;
    ghost var r := DecodeBlock(m.Value(), input, room, []);
    assert input[0..] == input && output[..0] == [];
    while pos < |input|
      invariant pos <= |input| && n <= room && r == DecodeBlock(m.Value(), input[pos..], room, output[..n])
      decreases |input| - pos
    {
      assert input[pos..][1..] == input[pos + 1..];
      var control := input[pos];
      ok, pos, n := UnpackGroup(m, control, input, pos + 1, room, output, n);
      if !ok {
        return;
      }
    }
    ok := true;
  }

  lemma DecodeOnce(s: Predictor, bytes: seq<byte>, limit: nat, out: seq<byte>)
    requires Ok(s)
    ensures var whole := DecodeStream(s, bytes, limit, out);
            if |bytes| < 2 then whole == Unpacking(TRUNCATED, out)
            else
              var count: nat := bytes[0] + 256 * (bytes[1] as nat);
              if count == 0 then whole == Unpacking(0, out)
              else if count > MAX_PACKED then whole == Unpacking(DAMAGED, out)
              else if |bytes| - 2 < count then whole == Unpacking(TRUNCATED, out)
              else
                var r := DecodeBlock(s, bytes[2..2 + count], Smaller(BLOCK_SIZE, limit), []);
                if r.Broken? || r.out == [] then whole == Unpacking(DAMAGED, out)
                else |r.out| <= limit && whole == DecodeStream(r.s, bytes[2 + count..], limit - |r.out|, out + r.out)
  {
    hide DecodeBlock;
  }

  lemma StreamAt(s: Predictor, data: seq<byte>, at: nat, limit: nat, out: seq<byte>)
    requires Ok(s) && at <= |data|
    ensures var whole := DecodeStream(s, data[at..], limit, out);
            if |data| - at < 2 then whole == Unpacking(TRUNCATED, out)
            else
              var count: nat := data[at] + 256 * (data[at + 1] as nat);
              if count == 0 then whole == Unpacking(0, out)
              else if count > MAX_PACKED then whole == Unpacking(DAMAGED, out)
              else if |data| - at - 2 < count then whole == Unpacking(TRUNCATED, out)
              else
                var r := DecodeBlock(s, data[at + 2..at + 2 + count], Smaller(BLOCK_SIZE, limit), []);
                if r.Broken? || r.out == [] then whole == Unpacking(DAMAGED, out)
                else |r.out| <= limit && whole == DecodeStream(r.s, data[at + 2 + count..], limit - |r.out|, out + r.out)
  {
    hide DecodeBlock, DecodeStream, Smaller;
    var w := data[at..];
    DecodeOnce(s, w, limit, out);
    if |w| >= 2 {
      var count: nat := w[0] + 256 * (w[1] as nat);
      if |w| - 2 >= count {
        assert w[2..2 + count] == data[at + 2..at + 2 + count] && w[2 + count..] == data[at + 2 + count..];
      }
    }
  }

  /** Unpacks blocks until the empty one, with the checksum of what was written. */
  method Decompress(dict: seq<byte>, src: ByteSource, limit0: nat) returns (ret: int, out: seq<byte>, csum: bv32)
    requires src.pos <= |src.data|
    modifies src
    ensures Unpacking(ret, out) == DecodeStream(Loaded(dict), src.data[old(src.pos)..], limit0, [])
    ensures ret == 0 ==> csum == Checked(out)
  {
    hide DecodeStream, DecodeBlock, Fold, Loaded, Small, Low16;
    var m := new Model(dict);
    var output := new byte[BLOCK_SIZE];
    var limit, sum := limit0, CSUM_INIT;
    out, csum := [], 0;
    InitSmall();
    NothingSummed();
    ghost var whole := DecodeStream(m.Value(), src.data[src.pos..], limit, []);
    while true
      invariant src.pos <= |src.data| && m.Valid() && fresh(m.table) && fresh(output) && output != m.table && output.Length == BLOCK_SIZE
      invariant whole == DecodeStream(m.Value(), src.data[src.pos..], limit, out)
      invariant Small(sum) && sum == Fold(CSUM_INIT, out)
      decreases |src.data| - src.pos
    {
      StreamAt(m.Value(), src.data, src.pos, limit, out);
      var ok, header := ReadAll(src, 2);
      if !ok {
        return TRUNCATED, out, csum;
      }
      var count: nat := header[0] + 256 * (header[1] as nat);
      if count == 0 {
        return 0, out, Low16(sum);
      }
      if count > MAX_PACKED {
        return DAMAGED, out, csum;
      }
      var input;
      ok, input := ReadAll(src, count);
      if !ok {
        return TRUNCATED, out, csum;
      }
      var n;
      ok, n := UnpackBlock(m, input, Smaller(BLOCK_SIZE, limit), output);
      if !ok || n == 0 {
        return DAMAGED, out, csum;
      }
      FoldConcat(CSUM_INIT, out, output[..n]);
      sum := Update(sum, output[..n]);
      out := out + output[..n];
      limit := limit - n;
    }
  }

  lemma NothingSummed()
    ensures Fold(CSUM_INIT, []) == CSUM_INIT
  {
  }

  /** Compressing and decompressing with the same dictionary gives back every text, however it was read. */
  method CompressThenDecompress(dict: seq<byte>, text: seq<byte>, limit: nat) returns (ret: int, back: seq<byte>, csum: bv32)
    requires |text| <= limit
    ensures ret == 0 && back == text && csum == Checked(text)
  {
    var src := new ByteSource(text);
    var sink, blocks := Compress(dict, src);
    var packed := new ByteSource(sink);
    ret, back, csum := Decompress(dict, packed, limit);
    RoundTrip(Loaded(dict), blocks, [], limit);
    assert [0, 0] + [] == [0, 0] && packed.data[0..] == sink && text[0..] == text;
  }
}
