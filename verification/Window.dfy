/** The 64 KiB ring window: history by position, and distances in 16-bit positions. */
module Window {
  import opened BitStrings

  const WINDOW := 65536

  /** The ring holds the last 64 KiB of the history, each byte at its position modulo the size. */
  ghost predicate Ring(d: seq<byte>, h: seq<byte>)
  {
    && |d| == WINDOW
    && forall q: nat :: q < |h| && |h| <= q + WINDOW ==> d[q % WINDOW] == h[q]
  }

  lemma SlotsDiffer(q: nat, n: nat)
    requires q < n < q + WINDOW
    ensures q % WINDOW != n % WINDOW
  {
    var a, b := q / WINDOW, n / WINDOW;
    MultipleBound(b - a, WINDOW);
  }

  lemma RingPush(d: seq<byte>, h: seq<byte>, b: byte)
    requires Ring(d, h)
    ensures Ring(d[|h| % WINDOW := b], h + [b])
  {
    var d', h' := d[|h| % WINDOW := b], h + [b];
    forall q: nat | q < |h'| && |h'| <= q + WINDOW ensures d'[q % WINDOW] == h'[q] {
      if q < |h| {
        SlotsDiffer(q, |h|);
      }
    }
  }

  lemma WrapNext(n: nat, t: nat)
    requires t == n % WINDOW
    ensures (t + 1) % WINDOW == (n + 1) % WINDOW
  {
  }

  /** The slot a distance back from the write position. */
  lemma WrapBack(n: nat, t: nat, dist: nat)
    requires t == n % WINDOW && dist <= n
    ensures (t - dist) % WINDOW == (n - dist) % WINDOW
  {
  }

  lemma WrapForward(n: nat, t: nat, k: nat)
    requires t == n % WINDOW && t + k <= WINDOW
    ensures (t + k) % WINDOW == (n + k) % WINDOW
    ensures forall i: nat {:trigger (n + i) % WINDOW} :: i < k ==> (n + i) % WINDOW == t + i
  {
    ModAdd(n, k, WINDOW);
    forall i: nat {:trigger (n + i) % WINDOW} | i < k ensures (n + i) % WINDOW == t + i {
      ModNear(n, i, WINDOW);
    }
  }

  lemma ModAdd(n: nat, k: nat, m: nat)
    requires m > 0
    ensures (n % m + k) % m == (n + k) % m
  {
    var q, r := (n % m + k) / m, (n % m + k) % m;
    assert n + k == (n / m + q) * m + r by {
      MulAddLeft(n / m, q, m);
    }
    DivModUnique(n / m + q, m, r);
  }

  lemma ModNear(n: nat, i: nat, m: nat)
    requires m > 0 && n % m + i < m
    ensures (n + i) % m == n % m + i
  {
    DivModUnique(n / m, m, n % m + i);
  }

  /** The pending count is the 16-bit difference of the two positions. */
  lemma WrapDistance(a: nat, n: nat)
    requires a <= n < a + WINDOW
    ensures (n % WINDOW - a % WINDOW) % WINDOW == n - a
  {
  }

  /** A stretch that does not cross the ring's edge is a stretch of the history. */
  lemma RingSlice(d: seq<byte>, h: seq<byte>, from: nat, n: nat)
    requires Ring(d, h) && from + n <= |h| <= from + WINDOW && from % WINDOW + n <= WINDOW
    ensures d[from % WINDOW..from % WINDOW + n] == h[from..from + n]
  {
    var s := from % WINDOW;
    WrapForward(from, s, n);
    var got, want := d[s..s + n], h[from..from + n];
    forall i: nat | i < n ensures got[i] == want[i] {
      assert (from + i) % WINDOW == s + i;
    }
  }

  lemma RingMaster(d: seq<byte>, m: seq<byte>)
    requires |d| == WINDOW && |m| <= WINDOW && d[..|m|] == m
    ensures Ring(d, m)
  {
    forall q: nat | q < |m| ensures d[q % WINDOW] == m[q] {
      assert d[..|m|][q] == d[q];
    }
  }
}
