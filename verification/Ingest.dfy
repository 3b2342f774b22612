/** Deduplicating a stream of chunks: a probed, growing index whose hits are confirmed byte by byte. */
module Ingest {
  import opened BitStrings
  import opened Tally
  import Chunking

  const U32_MAX := 0xFFFF_FFFF
  const CDC_BITS := 13
  const BUFFER_SIZE := 32768

  // ----- open addressing -----

  function At(keys: seq<nat>, key: nat, d: nat): (q: nat)
    requires keys != []
    ensures q < |keys|
  {
    (key + d) % |keys|
  }

  /** The first d places a key is looked for are taken. */
  ghost predicate Busy(keys: seq<nat>, key: nat, d: nat)
    requires keys != []
  {
    forall e: nat :: e < d ==> keys[At(keys, key, e)] != 0
  }

  /** Probing for its key arrives at place q. */
  ghost predicate Reached(keys: seq<nat>, q: nat)
  {
    q < |keys| && exists d: nat :: d < |keys| && At(keys, keys[q], d) == q && Busy(keys, keys[q], d)
  }

  /** The index holds each unique chunk in `place` under its key, and nothing else. */
  ghost predicate Index(keys: seq<nat>, slots: seq<nat>, place: map<nat, nat>, keyOf: seq<nat>)
  {
    && |keys| == |slots| && keys != []
    && (forall s :: s in place ==> s < |keyOf| && Holds(keys, slots, place[s], s, keyOf[s]))
    && (forall q :: 0 <= q < |keys| && keys[q] != 0 ==> slots[q] in place && place[slots[q]] == q)
  }

  ghost predicate Holds(keys: seq<nat>, slots: seq<nat>, q: nat, s: nat, key: nat)
    requires |keys| == |slots|
  {
    q < |keys| && keys[q] == key != 0 && slots[q] == s && Reached(keys, q)
  }

  lemma MoreBusy(keys: seq<nat>, p: nat, k: nat, key: nat, d: nat)
    requires p < |keys| && k != 0 && Busy(keys, key, d)
    ensures Busy(keys[p := k], key, d)
  {
    var keys' := keys[p := k];
    forall e: nat | e < d ensures keys'[At(keys', key, e)] != 0 {
      assert At(keys', key, e) == At(keys, key, e);
    }
  }

  lemma StillReached(keys: seq<nat>, p: nat, k: nat, q: nat)
    requires p < |keys| && keys[p] == 0 && k != 0 && Reached(keys, q) && keys[q] != 0
    ensures Reached(keys[p := k], q)
  {
    var d: nat :| d < |keys| && At(keys, keys[q], d) == q && Busy(keys, keys[q], d);
    MoreBusy(keys, p, k, keys[q], d);
    assert At(keys[p := k], keys[p := k][q], d) == q;
  }

  lemma NewReached(keys: seq<nat>, p: nat, k: nat, d: nat)
    requires p < |keys| && k != 0 && d < |keys| && At(keys, k, d) == p && Busy(keys, k, d)
    ensures Reached(keys[p := k], p)
  {
    MoreBusy(keys, p, k, k, d);
    var keys' := keys[p := k];
    assert At(keys', keys'[p], d) == p && Busy(keys', keys'[p], d);
  }

  /** Filling the empty place a probe stopped at. */
  lemma Inserted(keys: seq<nat>, slots: seq<nat>, place: map<nat, nat>, keyOf: seq<nat>, s: nat, k: nat, d: nat, p: nat)
    requires Index(keys, slots, place, keyOf) && s !in place && s < |keyOf| && keyOf[s] == k != 0
    requires d < |keys| && At(keys, k, d) == p && Busy(keys, k, d) && keys[p] == 0
    ensures Index(keys[p := k], slots[p := s], place[s := p], keyOf)
  {
    var keys', slots', place' := keys[p := k], slots[p := s], place[s := p];
    NewReached(keys, p, k, d);
    forall x | x in place' ensures x < |keyOf| && Holds(keys', slots', place'[x], x, keyOf[x]) {
      if x != s {
        assert Holds(keys, slots, place[x], x, keyOf[x]);
        StillReached(keys, p, k, place[x]);
      }
    }
    forall q | 0 <= q < |keys'| && keys'[q] != 0 ensures slots'[q] in place' && place'[slots'[q]] == q {
      if q != p {
        assert slots[q] in place && place[slots[q]] == q;
      }
    }
  }

  lemma MoreKeys(keys: seq<nat>, slots: seq<nat>, place: map<nat, nat>, keyOf: seq<nat>, k: nat)
    requires Index(keys, slots, place, keyOf)
    ensures Index(keys, slots, place, keyOf + [k])
  {
    forall s | s in place ensures s < |keyOf + [k]| && Holds(keys, slots, place[s], s, (keyOf + [k])[s]) {
      assert Holds(keys, slots, place[s], s, keyOf[s]);
    }
  }

  /** Fewer chunks than places: a probe cannot find every place taken. */
  lemma SomeEmpty(keys: seq<nat>, slots: seq<nat>, place: map<nat, nat>, keyOf: seq<nat>, key: nat)
    requires Index(keys, slots, place, keyOf) && |keyOf| < |keys|
    ensures !Busy(keys, key, |keys|)
  {
    if Busy(keys, key, |keys|) {
      forall q | 0 <= q < |keys| ensures keys[q] != 0 {
        EveryPlace(keys, key, q);
      }
      forall q | 0 <= q < |slots| ensures slots[q] < |keyOf| {
        assert slots[q] in place;
      }
      forall q, r | 0 <= q < r < |slots| ensures slots[q] != slots[r] {
        assert place[slots[q]] == q && place[slots[r]] == r;
      }
      DistinctBounded(slots, |keyOf|);
    }
  }

  lemma EveryPlace(keys: seq<nat>, key: nat, q: nat)
    requires q < |keys| && Busy(keys, key, |keys|)
    ensures keys[q] != 0
  {
    var n := |keys|;
    var h := key % n;
    var d: nat := if q >= h then q - h else q + n - h;
    var w := key / n;
    assert key == w * n + h;
    WrapTo(w, n, h, d, q);
    assert At(keys, key, d) == q;
  }

  lemma WrapTo(w: nat, n: nat, h: nat, d: nat, q: nat)
    requires 0 < n && h < n && q < n && (h + d == q || h + d == q + n)
    ensures (w * n + h + d) % n == q
  {
    if h + d == q {
      DivModUnique(w, n, q);
    } else {
      MulAddLeft(w, 1, n);
      DivModUnique(w + 1, n, q);
    }
  }

  /** A chunk under a key lies before the first empty place of the key's probe. */
  lemma FoundBefore(keys: seq<nat>, slots: seq<nat>, place: map<nat, nat>, keyOf: seq<nat>, s: nat, d: nat) returns (e: nat)
    requires Index(keys, slots, place, keyOf) && s in place && Busy(keys, keyOf[s], d) && keys[At(keys, keyOf[s], d)] == 0
    ensures e < d && At(keys, keyOf[s], e) == place[s]
  {
    var q := place[s];
    assert Holds(keys, slots, q, s, keyOf[s]);
    e :| e < |keys| && At(keys, keys[q], e) == q && Busy(keys, keys[q], e);
  }

  lemma NextPlace(keys: seq<nat>, key: nat, d: nat, p: nat)
    requires keys != [] && p == At(keys, key, d)
    ensures (p + 1) % |keys| == At(keys, key, d + 1)
  {
    var n := |keys|;
    var w := (key + d) / n;
    assert key + d == w * n + p;
    WrapTo(w, n, p, 1, if p + 1 == n then 0 else p + 1);
  }

  // ----- the index in memory -----

  class ChunkIndex {
    var keys: array<nat>
    var slots: array<nat>
    ghost var place: map<nat, nat>
    ghost var bits: nat

    /** The capacity is a power of two, so that masking a key is taking its remainder. */
    ghost predicate Valid(keyOf: seq<nat>)
      reads this, keys, slots
    {
      keys != slots && keys.Length == Pow2(bits) && Index(keys[..], slots[..], place, keyOf)
    }

    constructor (want: nat)
      ensures forall keyOf: seq<nat> :: Valid(keyOf)
      ensures fresh(keys) && fresh(slots) && keys.Length >= 16 && keys.Length >= want && place == map[]
    {
      var cap := 16;
      ghost var b := 4;
      assert Pow2(4) == 16;
      while cap < want
        invariant cap == Pow2(b) && cap >= 16
        decreases want - cap
      {
        cap, b := cap * 2, b + 1;
      }
      keys := new nat[cap](_ => 0);
      slots := new nat[cap](_ => 0);
      place, bits := map[], b;
    }

    /** The first empty place for a key. */
    method FindEmpty(key: nat, ghost keyOf: seq<nat>) returns (p: nat, ghost d: nat)
      requires Valid(keyOf) && |keyOf| < keys.Length
      ensures p < keys.Length && keys[p] == 0 && d < keys.Length && At(keys[..], key, d) == p && Busy(keys[..], key, d)
    {
      p, d := key % keys.Length, 0;
      while keys[p] != 0
        invariant p < keys.Length && d < keys.Length && At(keys[..], key, d) == p && Busy(keys[..], key, d)
        decreases keys.Length - d
      {
        NextPlace(keys[..], key, d, p);
        OneMoreBusy(keys[..], key, d);
        SomeEmpty(keys[..], slots[..], place, keyOf, key);
        p, d := (p + 1) % keys.Length, d + 1;
      }
    }

    /** Records a chunk at an empty place. */
    method Insert(p: nat, key: nat, s: nat, ghost d: nat, ghost keyOf: seq<nat>)
      requires Valid(keyOf) && s !in place && s < |keyOf| && keyOf[s] == key != 0
      requires p < keys.Length && keys[p] == 0 && d < keys.Length && At(keys[..], key, d) == p && Busy(keys[..], key, d)
      modifies this`place, keys, slots
      ensures Valid(keyOf) && place == old(place)[s := p]
    {
      Inserted(keys[..], slots[..], place, keyOf, s, key, d, p);
      keys[p] := key;
      slots[p] := s;
      place := place[s := p];
    }

    /** Moves everything into twice as many places. */
    method Grow(ghost keyOf: seq<nat>)
      requires Valid(keyOf) && |keyOf| < keys.Length
      modifies this
      ensures Valid(keyOf) && fresh(keys) && fresh(slots) && keys.Length >= 2 * old(keys.Length) && place.Keys == old(place.Keys)
    {
      hide Index;
      var next := new ChunkIndex(keys.Length * 2);
      IndexShape(keys[..], slots[..], place, keyOf);
      for i := 0 to keys.Length
        invariant unchanged(this)
        invariant next.Valid(keyOf) && fresh(next.keys) && fresh(next.slots) && next.keys.Length >= 2 * keys.Length
        invariant forall s :: s in next.place <==> s in place && place[s] < i
      {
        InIndex(keys[..], slots[..], place, keyOf, i);
        if keys[i] != 0 {
          var p, d := next.FindEmpty(keys[i], keyOf);
          next.Insert(p, keys[i], slots[i], d, keyOf);
        }
      }
      assert next.place.Keys == place.Keys;
      keys, slots, place, bits := next.keys, next.slots, next.place, next.bits;
    }
  }

  lemma OneMoreBusy(keys: seq<nat>, key: nat, d: nat)
    requires keys != [] && Busy(keys, key, d) && keys[At(keys, key, d)] != 0
    ensures Busy(keys, key, d + 1)
  {
  }

  lemma IndexShape(keys: seq<nat>, slots: seq<nat>, place: map<nat, nat>, keyOf: seq<nat>)
    requires Index(keys, slots, place, keyOf)
    ensures |keys| == |slots| && forall s :: s in place ==> s < |keyOf| && place[s] < |keys|
  {
    forall s | s in place ensures s < |keyOf| && place[s] < |keys| {
      assert Holds(keys, slots, place[s], s, keyOf[s]);
    }
  }

  /** What a place holds. */
  lemma InIndex(keys: seq<nat>, slots: seq<nat>, place: map<nat, nat>, keyOf: seq<nat>, q: nat)
    requires Index(keys, slots, place, keyOf) && q < |keys|
    ensures |slots| == |keys|
    ensures keys[q] != 0 ==> slots[q] in place && place[slots[q]] == q && slots[q] < |keyOf| && keyOf[slots[q]] == keys[q]
    ensures forall s :: s in place && place[s] == q ==> keys[q] != 0 && slots[q] == s
  {
    forall s | s in place && place[s] == q ensures keys[q] != 0 && slots[q] == s {
      assert Holds(keys, slots, place[s], s, keyOf[s]);
    }
    if keys[q] != 0 {
      assert Holds(keys, slots, place[slots[q]], slots[q], keyOf[slots[q]]);
    }
  }

  // ----- unique chunks -----

  /** Where a unique chunk lies in the spool. */
  datatype Unique = Unique(off: nat, size: nat)

  function Content(raw: seq<byte>, u: Unique): seq<byte>
    requires u.off + u.size <= |raw|
  {
    raw[u.off..u.off + u.size]
  }

  /** 0 marks empty places, so it is no key. */
  function KeyOf(hash: seq<byte> -> nat, data: seq<byte>): nat { if hash(data) == 0 then 1 else hash(data) }

  ghost predicate InSpool(raw: seq<byte>, uniq: seq<Unique>)
  {
    forall s :: 0 <= s < |uniq| ==> uniq[s].off <= U32_MAX && uniq[s].off + uniq[s].size <= |raw|
  }

  ghost predicate Distinct(raw: seq<byte>, uniq: seq<Unique>)
    requires InSpool(raw, uniq)
  {
    forall s, t :: 0 <= s < t < |uniq| ==> Content(raw, uniq[s]) != Content(raw, uniq[t])
  }

  function Keys(raw: seq<byte>, uniq: seq<Unique>, hash: seq<byte> -> nat): (k: seq<nat>)
    requires InSpool(raw, uniq)
    ensures |k| == |uniq| && forall s :: 0 <= s < |uniq| ==> k[s] == KeyOf(hash, Content(raw, uniq[s]))
  {
    seq(|uniq|, s requires 0 <= s < |uniq| => KeyOf(hash, Content(raw, uniq[s])))
  }

  /** All unique chunks are in the index. */
  ghost predicate Whole(place: map<nat, nat>, n: nat) { forall s: nat :: s in place <==> s < n }

  /** Looks for a stored copy of the chunk; otherwise there is none, and p is where its key goes. */
  method Lookup(index: ChunkIndex, raw: seq<byte>, uniq: seq<Unique>, data: seq<byte>, key: nat, ghost hash: seq<byte> -> nat)
    returns (found: bool, slot: nat, p: nat, ghost d: nat)
    requires InSpool(raw, uniq) && index.Valid(Keys(raw, uniq, hash)) && Whole(index.place, |uniq|) && |uniq| < index.keys.Length
    requires key == KeyOf(hash, data)
    ensures found ==> slot < |uniq| && Content(raw, uniq[slot]) == data
    ensures !found ==> forall s :: 0 <= s < |uniq| ==> Content(raw, uniq[s]) != data
    ensures !found ==> p < index.keys.Length && index.keys[p] == 0 && d < index.keys.Length
                       && At(index.keys[..], key, d) == p && Busy(index.keys[..], key, d)
  {
    hide Index;
    ghost var keyOf := Keys(raw, uniq, hash);
    ghost var keys, slots, place := index.keys[..], index.slots[..], index.place;
    IndexShape(keys, slots, place, keyOf);
    slot := 0;
    p, d := key % index.keys.Length, 0;
    while index.keys[p] != 0
      invariant p < |keys| && d < |keys| && At(keys, key, d) == p && Busy(keys, key, d)
      invariant forall e: nat :: e < d && keys[At(keys, key, e)] == key ==>
                  slots[At(keys, key, e)] < |uniq| && Content(raw, uniq[slots[At(keys, key, e)]]) != data
      decreases |keys| - d
    {
      InIndex(keys, slots, place, keyOf, p);
      slot := index.slots[p];
      if index.keys[p] == key && uniq[slot].size == |data| {
        if raw[uniq[slot].off..uniq[slot].off + |data|] == data {
          return true, slot, p, d;
        }
      }
      NextPlace(keys, key, d, p);
      OneMoreBusy(keys, key, d);
      SomeEmpty(keys, slots, place, keyOf, key);
      p, d := (p + 1) % index.keys.Length, d + 1;
    }
    forall s | 0 <= s < |uniq| ensures Content(raw, uniq[s]) != data {
      if keyOf[s] == key {
        var e := FoundBefore(keys, slots, place, keyOf, s, d);
        InIndex(keys, slots, place, keyOf, place[s]);
      }
    }
    found := false;
  }

  // ----- the stream -----

  /** The chunks of the occurrences, in order. */
  function Occurrences(raw: seq<byte>, uniq: seq<Unique>, occ: seq<nat>): (c: seq<seq<byte>>)
    requires InSpool(raw, uniq) && forall i :: 0 <= i < |occ| ==> occ[i] < |uniq|
    ensures |c| == |occ|
  {
    seq(|occ|, i requires 0 <= i < |occ| => Content(raw, uniq[occ[i]]))
  }

  lemma Appended(raw: seq<byte>, uniq: seq<Unique>, data: seq<byte>, hash: seq<byte> -> nat, occ: seq<nat>)
    requires InSpool(raw, uniq) && |raw| <= U32_MAX && forall i :: 0 <= i < |occ| ==> occ[i] < |uniq|
    ensures var raw', uniq' := raw + data, uniq + [Unique(|raw|, |data|)];
            && InSpool(raw', uniq') && Content(raw', uniq'[|uniq|]) == data
            && Keys(raw', uniq', hash) == Keys(raw, uniq, hash) + [KeyOf(hash, data)]
            && Occurrences(raw', uniq', occ) == Occurrences(raw, uniq, occ)
            && ((forall s :: 0 <= s < |uniq| ==> Content(raw, uniq[s]) != data) && Distinct(raw, uniq) ==> Distinct(raw', uniq'))
  {
    var raw', uniq' := raw + data, uniq + [Unique(|raw|, |data|)];
    assert raw'[|raw|..|raw| + |data|] == data;
    forall s | 0 <= s < |uniq| ensures Content(raw', uniq'[s]) == Content(raw, uniq[s]) {
    }
    assert Occurrences(raw', uniq', occ) == Occurrences(raw, uniq, occ);
    assert Keys(raw', uniq', hash) == Keys(raw, uniq, hash) + [KeyOf(hash, data)];
  }

  /** Stores a chunk that is not there yet. */
  method Store(index: ChunkIndex, raw: seq<byte>, uniq: seq<Unique>, data: seq<byte>, key: nat, p: nat, ghost d: nat,
               ghost hash: seq<byte> -> nat)
    returns (raw': seq<byte>, uniq': seq<Unique>)
    requires InSpool(raw, uniq) && index.Valid(Keys(raw, uniq, hash)) && Whole(index.place, |uniq|) && key == KeyOf(hash, data)
    requires |raw| <= U32_MAX
    requires p < index.keys.Length && index.keys[p] == 0 && d < index.keys.Length
    requires At(index.keys[..], key, d) == p && Busy(index.keys[..], key, d)
    modifies index, index.keys, index.slots
    ensures raw' == raw + data && uniq' == uniq + [Unique(|raw|, |data|)]
    ensures InSpool(raw', uniq') && index.Valid(Keys(raw', uniq', hash)) && Whole(index.place, |uniq'|)
    ensures index.keys == old(index.keys) && index.slots == old(index.slots)
  {
    hide Index, Busy, At;
    raw', uniq' := raw + data, uniq + [Unique(|raw| % 0x1_0000_0000, |data|)];
    Appended(raw, uniq, data, hash, []);
    MoreKeys(index.keys[..], index.slots[..], index.place, Keys(raw, uniq, hash), key);
    index.Insert(p, key, |uniq|, d, Keys(raw', uniq', hash));
  }

  lemma BufferFits(gear: byte -> nat)
    ensures Chunking.Init(gear, CDC_BITS, 0, 0).max == BUFFER_SIZE
  {
    Pow2Add(8, 7);
    Pow2Values();
    assert Pow2(7) == 128;
  }

  lemma OneMore(raw: seq<byte>, uniq: seq<Unique>, occ: seq<nat>, slot: nat)
    requires InSpool(raw, uniq) && slot < |uniq| && forall i :: 0 <= i < |occ| ==> occ[i] < |uniq|
    ensures Occurrences(raw, uniq, occ + [slot]) == Occurrences(raw, uniq, occ) + [Content(raw, uniq[slot])]
  {
  }

  /** One chunk: an occurrence of a stored chunk, or of one that is stored now. */
  method Record(index: ChunkIndex, raw: seq<byte>, uniq: seq<Unique>, occ: seq<nat>, data: seq<byte>, hash: seq<byte> -> nat)
    returns (raw': seq<byte>, uniq': seq<Unique>, occ': seq<nat>)
    requires InSpool(raw, uniq) && index.Valid(Keys(raw, uniq, hash)) && Whole(index.place, |uniq|) && Distinct(raw, uniq)
    requires 2 * |uniq| <= index.keys.Length && index.keys.Length >= 16 && |raw| <= U32_MAX
    requires forall i :: 0 <= i < |occ| ==> occ[i] < |uniq|
    modifies index, index.keys, index.slots
    ensures InSpool(raw', uniq') && index.Valid(Keys(raw', uniq', hash)) && Whole(index.place, |uniq'|) && Distinct(raw', uniq')
    ensures 2 * |uniq'| <= index.keys.Length && index.keys.Length >= 16 && |raw'| <= |raw| + |data|
    ensures index.keys == old(index.keys) || fresh(index.keys)
    ensures index.slots == old(index.slots) || fresh(index.slots)
    ensures (forall i :: 0 <= i < |occ'| ==> occ'[i] < |uniq'|)
    ensures Occurrences(raw', uniq', occ') == Occurrences(raw, uniq, occ) + [data]
  {
    hide Index, Distinct;
    if |uniq| >= index.keys.Length / 2 {
      index.Grow(Keys(raw, uniq, hash));
    }
    var key := if hash(data) == 0 then 1 else hash(data);
    var found, slot, p, d := Lookup(index, raw, uniq, data, key, hash);
    raw', uniq' := raw, uniq;
    if !found {
      slot := |uniq|;
      Appended(raw, uniq, data, hash, occ);
      raw', uniq' := Store(index, raw, uniq, data, key, p, d, hash);
    }
    OneMore(raw', uniq', occ, slot);
    occ' := occ + [slot];
  }

  /**
    * Chunks the stream through a buffer of one maximal chunk and stores each distinct chunk once. Only a stream of 4 GiB
    * or more is refused; otherwise the occurrences are exactly the stream's chunks and no two stored chunks are equal.
    */
  method IngestStream(src: seq<byte>, gear: byte -> nat, hash: seq<byte> -> nat)
    returns (ok: bool, raw: seq<byte>, uniq: seq<Unique>, occ: seq<nat>)
    ensures ok <==> |src| <= U32_MAX
    ensures InSpool(raw, uniq) && forall i :: 0 <= i < |occ| ==> occ[i] < |uniq|
    ensures ok ==> Occurrences(raw, uniq, occ) == Chunking.Chunks(Chunking.Init(gear, CDC_BITS, 0, 0), src) && Distinct(raw, uniq)
  {
    hide Chunking.Cut, Chunking.Chunks, Chunking.Init, Index, Distinct, Content, Occurrences, Keys;
    ghost var p := Chunking.Init(gear, CDC_BITS, 0, 0);
    BufferFits(gear);
    var index := new ChunkIndex(16);
    raw, uniq, occ := [], [], [];
    var data: seq<byte>, atEnd, bytesIn, pos := [], false, 0, 0;
    ghost var at := 0;
    NothingStored();
    NoChunksYet(p, src);
    while true
      invariant at <= pos <= |src| && data == src[at..pos] && |data| <= BUFFER_SIZE && (atEnd ==> pos == |src|) && bytesIn == at
      invariant at <= U32_MAX && |raw| <= at
      invariant InSpool(raw, uniq) && index.Valid(Keys(raw, uniq, hash)) && Whole(index.place, |uniq|) && Distinct(raw, uniq)
      invariant fresh(index) && fresh(index.keys) && fresh(index.slots)
      invariant 2 * |uniq| <= index.keys.Length && index.keys.Length >= 16
      invariant forall i :: 0 <= i < |occ| ==> occ[i] < |uniq|
      invariant Chunking.Chunks(p, src[0..]) == Occurrences(raw, uniq, occ) + Chunking.Chunks(p, src[at..])
      decreases |src| - at
    {
      if !atEnd && |data| < BUFFER_SIZE {
        var want := BUFFER_SIZE - |data|;
        var got := if want < |src| - pos then want else |src| - pos;
        data := data + src[pos..pos + got];
        pos := pos + got;
        atEnd := got < want;
      }
      assert data == src[at..pos];
      if data == [] {
        Chunking.NoChunks(p, Occurrences(raw, uniq, occ));
        assert src[at..] == [] && src[0..] == src;
        return true, raw, uniq, occ;
      }
      Chunking.BufferStep(p, src, 0, at, pos, Occurrences(raw, uniq, occ));
      var length := Chunking.ChunkLength(data, gear, CDC_BITS);
      if length > U32_MAX - bytesIn {
        return false, raw, uniq, occ;
      }
      bytesIn := bytesIn + length;
      ghost var pieces, piece := Occurrences(raw, uniq, occ), data[..length];
      raw, uniq, occ := Record(index, raw, uniq, occ, data[..length], hash);
      assert Occurrences(raw, uniq, occ) == pieces + [piece];
      data := data[length..];
      at := at + length;
      assert data == src[at..pos];
    }
  }

  lemma NothingStored()
    ensures InSpool([], []) && Distinct([], []) && Whole(map[], 0)
  {
  }

  lemma NoChunksYet(p: Chunking.Params, src: seq<byte>)
    requires Chunking.ParamsOk(p)
    ensures src[0..] == src && Chunking.Chunks(p, src) == Occurrences([], [], []) + Chunking.Chunks(p, src)
  {
  }

  /** Concatenating the stored chunks of all occurrences restores the stream. */
  lemma Restores(src: seq<byte>, gear: byte -> nat, raw: seq<byte>, uniq: seq<Unique>, occ: seq<nat>)
    requires InSpool(raw, uniq) && forall i :: 0 <= i < |occ| ==> occ[i] < |uniq|
    requires Occurrences(raw, uniq, occ) == Chunking.Chunks(Chunking.Init(gear, CDC_BITS, 0, 0), src)
    ensures Chunking.Join(Occurrences(raw, uniq, occ)) == src
  {
    Chunking.ChunksJoin(Chunking.Init(gear, CDC_BITS, 0, 0), src);
  }
}
