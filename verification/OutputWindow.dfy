/** The decompressor's output buffer: the ring, what is still to be written, and the limit. */
module OutputWindow {
  import opened BitStrings
  import opened ErrorCodes
  import opened LzCodes
  import opened Checksum
  import opened Window

  lemma PrefixGrows(s: seq<byte>, piece: seq<byte>, h: seq<byte>, base: nat)
    requires base <= |h| && s <= h[base..] && base + |s| + |piece| <= |h|
    requires piece == h[base + |s|..base + |s| + |piece|]
    ensures s + piece <= h[base..]
  {
    assert h[base..][|s|..|s| + |piece|] == piece;
  }

  class CBuffer {
    const strict: bool
    const data: array<byte>
    var head: nat
    var tail: nat
    var limit: nat
    var produced: nat
    var csum: bv32
    var sink: seq<byte>       // what the write callback has received
    ghost const base: nat     // length of the master
    ghost const total: nat    // the limit at the start
    ghost var hist: seq<byte> // the master and everything decoded

    /** While output is still wanted the ring is in step with the history; afterwards only safety matters. */
    ghost predicate Synced()
      reads this`limit
    {
      strict || limit > 0
    }

    ghost function Flushed(): nat
      reads this`sink
    {
      base + |sink|
    }

    ghost predicate InStep()
      reads this, data
    {
      && Flushed() <= |hist| < Flushed() + WINDOW
      && head == Flushed() % WINDOW && tail == |hist| % WINDOW
      && produced == (if |hist| < WINDOW then |hist| else WINDOW)
      && Ring(data[..], hist)
    }

    ghost predicate Valid()
      reads this, data
    {
      && data.Length == WINDOW && head < WINDOW && tail < WINDOW
      && limit + |sink| == total && Small(csum) && csum == Fold(CSUM_INIT, sink)
      && base <= |hist| && sink <= hist[base..]
      && (Synced() ==> InStep())
    }

    constructor (master: seq<byte>, limit: nat, strict: bool)
      requires |master| < WINDOW
      ensures Valid() && fresh(data) && this.strict == strict && base == |master| && hist == master
      ensures this.limit == total == limit && sink == [] && head == tail
    {
      this.strict, this.limit, this.total, base, hist, sink := strict, limit, limit, |master|, master, [];
      head, tail, produced := |master|, |master|, |master|;
      csum := CSUM_INIT;
      data := new byte[WINDOW](i => if 0 <= i < |master| then master[i] else 0);
      new;
      InitSmall();
      assert Fold(CSUM_INIT, []) == CSUM_INIT;
      assert data[..|master|] == master;
      RingMaster(data[..], master);
    }

    function Have(): (n: nat)
      reads this
      ensures n < WINDOW
    {
      (tail - head) % WINDOW
    }

    function Space(): (n: nat)
      reads this
    {
      WINDOW - Have() - 1
    }

    lemma HaveIsPending()
      requires Valid() && Synced()
      ensures Have() == |hist| - Flushed()
    {
      WrapDistance(Flushed(), |hist|);
    }

    /** One byte goes into the ring and the history. */
    method PutByte(b: byte)
      requires Valid() && (Synced() ==> |hist| + 1 < Flushed() + WINDOW)
      modifies this`tail, this`produced, this`hist, data
      ensures Valid()
      ensures hist == if Synced() then old(hist) + [b] else old(hist)
    {
      hide Ring;
      ghost var ring := data[..];
      data[tail] := b;
      assert data[..] == ring[tail := b];
      if Synced() {
        RingPush(ring, hist, b);
        WrapNext(|hist|, tail);
        hist := hist + [b];
        assert sink <= hist[base..];
      }
      tail := (tail + 1) % WINDOW;
      if produced < 65536 {
        produced := produced + 1;
      }
    }

    /** The byte dist back in the window. */
    lemma ByteBack(dist: nat)
      requires Valid()
      ensures data.Length == WINDOW && tail < WINDOW
      ensures Synced() && Reachable(hist, dist) ==> data[(tail - dist) % WINDOW] == hist[|hist| - dist]
    {
      if Synced() && Reachable(hist, dist) {
        WrapBack(|hist|, tail, dist);
      }
    }

    /** Copies len bytes from dist back, overlapping itself if need be. */
    method CopyMatch(dist: nat, len: nat)
      requires Valid() && 1 <= len
      requires Synced() ==> Reachable(hist, dist) && |hist| + len < Flushed() + WINDOW
      modifies this`tail, this`produced, this`hist, data
      ensures Valid()
      ensures hist == if Synced() then Copy(old(hist), dist, len) else old(hist)
    {
      hide CBuffer.Valid, CBuffer.InStep, Copy;
      ghost var before := hist;
      var n := len;
      while n > 0
        invariant n <= len && Valid()
        invariant Synced() ==> Reachable(hist, dist) && |hist| + n < Flushed() + WINDOW
                               && Copy(hist, dist, n) == Copy(before, dist, len)
        invariant !Synced() ==> hist == before
      {
        ByteBack(dist);
        if Synced() {
          CopyStep(hist, dist, n);
        }
        PutByte(data[(tail - dist) % WINDOW]);
        n := n - 1;
      }
      if Synced() {
        CopyNothing(hist, dist);
      }
    }

    /** Whether a match can be copied: not empty, room for it, and inside what the window holds. */
    lemma MatchFits(dist: nat, len: nat)
      requires Valid() && Synced() && Space() >= MAX_COPY && 1 <= len <= MAX_COPY
      ensures len <= Space() && |hist| + len < Flushed() + WINDOW
      ensures Reachable(hist, dist) <==> dist != 0 && dist <= produced
    {
      HaveIsPending();
    }

    /** A stretch of pending bytes that does not cross the ring's edge goes to the write callback. */
    method WriteOut(n: nat)
      requires Valid() && n <= limit && head + n <= WINDOW
      requires Synced() ==> n <= |hist| - Flushed()
      requires !Synced() ==> n == 0
      modifies this`head, this`limit, this`csum, this`sink
      ensures Valid() && limit == old(limit) - n && |sink| == |old(sink)| + n
      ensures head == (old(head) + n) % WINDOW
    {
      hide Fold, Ring, Small;
      ghost var from := Flushed();
      var piece := data[head..head + n];
      csum := Update(csum, piece);
      FoldConcat(CSUM_INIT, sink, piece);
      if Synced() {
        RingSlice(data[..], hist, from, n);
        assert data[..][head..head + n] == piece;
        WrapForward(from, head, n);
        PrefixGrows(sink, piece, hist, base);
      }
      sink := sink + piece;
      head := (head + n) % WINDOW;
      limit := limit - n;
    }

    /** Writes everything pending, up to the limit; a strict reader refuses to go over it. */
    method Flush() returns (ret: int)
      requires Valid()
      modifies this`head, this`limit, this`csum, this`sink
      ensures Valid() && ret <= 0 && limit <= old(limit)
      ensures strict ==> (ret == 0 <==> old(|hist| - Flushed()) <= old(limit))
      ensures ret == 0 && Synced() ==> Flushed() == |hist|
      ensures !strict ==> ret == 0
    {
      hide CBuffer.InStep, Fold;
      ghost var room := limit + |sink|;
      while true
        invariant Valid() && limit <= old(limit) && limit + |sink| == room && (strict ==> |sink| == old(|sink|) || |hist| - Flushed() <= limit)
        decreases Have()
      {
        var n := Have();
        if Synced() {
          HaveIsPending();
        }
        if n == 0 {
          return 0;
        }
        if strict && limit < n {
          return DAMAGED;
        }
        var u := WINDOW - head;
        if n > u {
          n := u;
        }
        if limit < n {
          n := limit;
        }
        WriteOut(n);
        if limit == 0 {
          break;
        }
        if Synced() {
          HaveIsPending();
        }
      }
      return 0;
    }
  }
}
