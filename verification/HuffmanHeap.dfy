/** The index min-heap of the Huffman tree builder; positions run from 1 to len. */
module HuffmanHeap {

  ghost predicate Child(j: int, c: int)
  {
    c == 2 * j || c == 2 * j + 1
  }

  ghost predicate InRange(h: seq<nat>, f: seq<nat>, len: nat)
  {
    len < |h| && forall j :: 1 <= j <= len ==> h[j] < |f|
  }

  /** No position from lo on has a child of smaller frequency. */
  ghost predicate Ordered(h: seq<nat>, f: seq<nat>, lo: nat, len: nat)
    requires InRange(h, f, len) && 1 <= lo
  {
    forall j, c :: lo <= j && Child(j, c) && c <= len ==> f[h[j]] <= f[h[c]]
  }

  /** As Ordered, except that the value at hole may exceed its children's. */
  ghost predicate OrderedBut(h: seq<nat>, f: seq<nat>, lo: nat, len: nat, hole: nat)
    requires InRange(h, f, len) && 1 <= lo
  {
    && (forall j, c :: lo <= j && Child(j, c) && c <= len && j != hole ==> f[h[j]] <= f[h[c]])
    && (forall j, c :: lo <= j && Child(j, hole) && Child(hole, c) && hole <= len && c <= len ==> f[h[j]] <= f[h[c]])
  }

  function Live(h: seq<nat>, len: nat): multiset<nat>
    requires len < |h|
  {
    multiset(h[1..len + 1])
  }

  lemma {:induction false} RootIsLeast(h: seq<nat>, f: seq<nat>, len: nat, k: nat)
    requires InRange(h, f, len) && Ordered(h, f, 1, len) && 1 <= k <= len
    ensures f[h[1]] <= f[h[k]]
  {
    if k > 1 {
      RootIsLeast(h, f, len, k / 2);
      assert Child(k / 2, k);
    }
  }

  lemma SwapLive(h: seq<nat>, len: nat, a: nat, b: nat)
    requires len < |h| && 1 <= a <= len && 1 <= b <= len
    ensures Live(h[a := h[b]][b := h[a]], len) == Live(h, len)
  {
    var s, t := h[1..len + 1], h[a := h[b]][b := h[a]][1..len + 1];
    assert t == s[a - 1 := s[b - 1]][b - 1 := s[a - 1]];
  }

  /** The child a sift-down step looks at: the smaller one, the right one on ties. */
  function SmallerChild(h: seq<nat>, f: seq<nat>, len: nat, entry: nat): (c: nat)
    requires InRange(h, f, len) && 1 <= entry && 2 * entry <= len
    ensures Child(entry, c) && c <= len
    ensures forall d :: Child(entry, d) && d <= len ==> f[h[c]] <= f[h[d]]
  {
    var child := 2 * entry;
    if child < len && f[h[child]] >= f[h[child + 1]] then child + 1 else child
  }

  lemma SiftStart(h: seq<nat>, f: seq<nat>, len: nat, entry: nat)
    requires InRange(h, f, len) && 1 <= entry && Ordered(h, f, entry + 1, len)
    ensures OrderedBut(h, f, entry, len, entry)
  {
  }

  lemma SiftStep(h: seq<nat>, f: seq<nat>, lo: nat, len: nat, hole: nat, c: nat)
    requires InRange(h, f, len) && 1 <= lo <= hole && 2 * hole <= len
    requires OrderedBut(h, f, lo, len, hole)
    requires c == SmallerChild(h, f, len, hole) && f[h[hole]] >= f[h[c]]
    ensures var h' := h[hole := h[c]][c := h[hole]];
            InRange(h', f, len) && OrderedBut(h', f, lo, len, c)
  {
    var h' := h[hole := h[c]][c := h[hole]];
    forall j, d | lo <= j && Child(j, d) && d <= len && j != c
      ensures f[h'[j]] <= f[h'[d]]
    {
      if j == hole {
        assert f[h[c]] <= f[h[d]];
      } else if d == hole {
        assert f[h[j]] <= f[h[c]];
      }
    }
    forall j, d | lo <= j && Child(j, c) && Child(c, d) && d <= len
      ensures f[h'[j]] <= f[h'[d]]
    {
      assert j == hole;
      assert f[h[c]] <= f[h[d]];
    }
  }

  lemma SiftDone(h: seq<nat>, f: seq<nat>, lo: nat, len: nat, hole: nat)
    requires InRange(h, f, len) && 1 <= lo <= hole && OrderedBut(h, f, lo, len, hole)
    requires 2 * hole <= len ==> f[h[hole]] <= f[h[SmallerChild(h, f, len, hole)]]
    ensures Ordered(h, f, lo, len)
  {
    forall j, c | lo <= j && Child(j, c) && c <= len
      ensures f[h[j]] <= f[h[c]]
    {
      if j == hole {
        assert f[h[SmallerChild(h, f, len, hole)]] <= f[h[c]];
      }
    }
  }

  lemma SwapInRange(h: seq<nat>, f: seq<nat>, len: nat, a: nat, b: nat)
    requires InRange(h, f, len) && 1 <= a <= len && 1 <= b <= len
    ensures InRange(h[a := h[b]][b := h[a]], f, len)
  {
  }

  /** The heap after the value at entry has sunk to its place: it stops above a child only if that child is heavier. */
  ghost function Sift(h: seq<nat>, f: seq<nat>, len: nat, entry: nat): (r: seq<nat>)
    requires InRange(h, f, len) && 1 <= entry <= len
    ensures |r| == |h| && InRange(r, f, len)
    decreases len - entry
  {
    if 2 * entry > len then h
    else
      var c := SmallerChild(h, f, len, entry);
      SwapInRange(h, f, len, entry, c);
      if f[h[entry]] < f[h[c]] then h else Sift(h[entry := h[c]][c := h[entry]], f, len, c)
  }

  lemma SiftOnce(h: seq<nat>, f: seq<nat>, len: nat, entry: nat)
    requires InRange(h, f, len) && 1 <= entry <= len
    ensures 2 * entry > len ==> Sift(h, f, len, entry) == h
    ensures 2 * entry <= len ==>
              var c := SmallerChild(h, f, len, entry);
              var h' := h[entry := h[c]][c := h[entry]];
              InRange(h', f, len) && Sift(h, f, len, entry) == if f[h[entry]] < f[h[c]] then h else Sift(h', f, len, c)
  {
    if 2 * entry <= len {
      SwapInRange(h, f, len, entry, SmallerChild(h, f, len, entry));
    }
  }

  lemma {:induction false} SiftHole(h: seq<nat>, f: seq<nat>, lo: nat, len: nat, entry: nat)
    requires InRange(h, f, len) && 1 <= lo <= entry <= len && OrderedBut(h, f, lo, len, entry)
    ensures Ordered(Sift(h, f, len, entry), f, lo, len) && Live(Sift(h, f, len, entry), len) == Live(h, len)
    decreases len - entry
  {
    hide Ordered, OrderedBut, Live, InRange;
    if 2 * entry > len {
      SiftDone(h, f, lo, len, entry);
    } else {
      var c := SmallerChild(h, f, len, entry);
      ChildInRange(h, f, len, entry);
      SwapInRange(h, f, len, entry, c);
      if f[h[entry]] < f[h[c]] {
        SiftDone(h, f, lo, len, entry);
      } else {
        SiftStep(h, f, lo, len, entry, c);
        SwapLive(h, len, entry, c);
        SiftHole(h[entry := h[c]][c := h[entry]], f, lo, len, c);
      }
    }
  }

  lemma ChildInRange(h: seq<nat>, f: seq<nat>, len: nat, entry: nat)
    requires InRange(h, f, len) && 1 <= entry && 2 * entry <= len
    ensures len < |h| && h[entry] < |f| && h[SmallerChild(h, f, len, entry)] < |f| && entry < SmallerChild(h, f, len, entry)
  {
  }

  /** Sinking restores the heap order below the entry and keeps the live entries. */
  lemma SiftOrdered(h: seq<nat>, f: seq<nat>, len: nat, entry: nat)
    requires InRange(h, f, len) && 1 <= entry <= len && Ordered(h, f, entry + 1, len)
    ensures Ordered(Sift(h, f, len, entry), f, entry, len) && Live(Sift(h, f, len, entry), len) == Live(h, len)
  {
    hide Ordered, OrderedBut, Live;
    SiftStart(h, f, len, entry);
    SiftHole(h, f, entry, len, entry);
  }

  /** Sinks the value at entry down to its place. */
  method Reheap(entry0: nat, heap: array<nat>, len: nat, f: seq<nat>)
    requires 1 <= entry0 <= len && InRange(heap[..], f, len)
    modifies heap
    ensures heap[..] == Sift(old(heap[..]), f, len, entry0)
  {
    hide Sift;
    var entry := entry0;
    var val := heap[entry];
    ghost var h := heap[..];  // the heap with val standing in the hole
    while entry <= len / 2
      invariant entry0 <= entry <= len && h == heap[..][entry := val]
      invariant InRange(heap[..], f, len) && InRange(h, f, len)
      invariant Sift(h, f, len, entry) == Sift(old(heap[..]), f, len, entry0)
      decreases len - entry
    {
      var child := 2 * entry;
      if child < len {
        if f[heap[child]] >= f[heap[child + 1]] {
          child := child + 1;
        }
      }
      assert child == SmallerChild(h, f, len, entry);
      SiftOnce(h, f, len, entry);
      if f[val] < f[heap[child]] {
        break;
      }
      h := h[entry := h[child]][child := h[entry]];
      heap[entry] := heap[child];
      entry := child;
    }
    SiftOnce(h, f, len, entry);
    heap[entry] := val;
    assert heap[..] == h;
  }
}
