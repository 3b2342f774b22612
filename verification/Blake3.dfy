/** BLAKE3: the hash tree of section 2.1 of the BLAKE3 specification and the incremental stack machine. */
module Blake3 {
  import opened BitStrings

  const BLOCK_LEN := 64
  const CHUNK_LEN := 1024
  const STACK_SIZE := 54

  const CHUNK_START := 1
  const CHUNK_END := 2
  const PARENT := 4
  const ROOT := 8

  /** The compression function is not interpreted: chaining value, block, its length, counter, flags. */
  datatype Primitives<!T> = Primitives(iv: T, compress: (T, seq<byte>, nat, nat, nat) -> T, bytes: T -> seq<byte>)

  // ----- the tree -----

  function Pad(b: seq<byte>): (r: seq<byte>)
    requires |b| <= BLOCK_LEN
    ensures |r| == BLOCK_LEN
  {
    b + seq(BLOCK_LEN - |b|, _ => 0)
  }

  function StartFlag(b: nat): nat { if b == 0 then CHUNK_START else 0 }

  /** The flags of a block of a chunk: whether it is the first, the last, and the whole input's last. */
  function ChunkFlags(first: bool, last: bool, root: bool): nat
  {
    (if first then CHUNK_START else 0) + (if last then CHUNK_END else 0) + if root then ROOT else 0
  }

  /** The flags tell all kinds of blocks apart, and a parent from every block of a chunk. */
  lemma FlagsApart(first: bool, last: bool, root: bool, first': bool, last': bool, root': bool)
    ensures ChunkFlags(first, last, root) == ChunkFlags(first', last', root') <==> first == first' && last == last' && root == root'
    ensures ChunkFlags(first, last, root) != PARENT && ChunkFlags(first, last, root) != PARENT + ROOT
  {
  }

  /** The chaining value after the first b blocks of a chunk. */
  function ChunkState<T>(f: Primitives<T>, chunk: seq<byte>, b: nat, counter: nat): T
    requires BLOCK_LEN * b <= |chunk|
  {
    if b == 0 then f.iv
    else f.compress(ChunkState(f, chunk, b - 1, counter), chunk[BLOCK_LEN * (b - 1)..BLOCK_LEN * b], BLOCK_LEN, counter, StartFlag(b - 1))
  }

  /** Blocks before the last one, which is never empty unless the chunk is. */
  function InnerBlocks(n: nat): (b: nat)
    ensures BLOCK_LEN * b <= n <= BLOCK_LEN * b + BLOCK_LEN
  {
    if n == 0 then 0 else (n - 1) / BLOCK_LEN
  }

  function ChunkValue<T>(f: Primitives<T>, chunk: seq<byte>, counter: nat, extra: nat): T
  {
    var b := InnerBlocks(|chunk|);
    var last := chunk[BLOCK_LEN * b..];
    f.compress(ChunkState(f, chunk, b, counter), Pad(last), |last|, counter, StartFlag(b) + CHUNK_END + extra)
  }

  function Parent<T>(f: Primitives<T>, left: T, right: T, extra: nat): T
  {
    f.compress(f.iv, f.bytes(left) + f.bytes(right), BLOCK_LEN, 0, PARENT + extra)
  }

  /** The largest power of two below n, searched from 2^j upwards. */
  function LeftLevel(n: nat, j: nat): (l: nat)
    requires Pow2(j) < n
    ensures Pow2(l) < n <= 2 * Pow2(l)
    decreases n - Pow2(j)
  {
    if 2 * Pow2(j) >= n then j else LeftLevel(n, j + 1)
  }

  function Chunks(n: nat): nat { (n + CHUNK_LEN - 1) / CHUNK_LEN }

  lemma LeftFits(n: nat)
    requires n > CHUNK_LEN
    ensures Chunks(n) >= 2 && Pow2(0) == 1
    ensures 0 < CHUNK_LEN * Pow2(LeftLevel(Chunks(n), 0)) < n
  {
    var l := LeftLevel(Chunks(n), 0);
    assert Pow2(l) <= Chunks(n) - 1;
  }

  /**
    * The tree over an input: a chunk, or a parent whose left subtree has the largest power of two of chunks
    * that leaves at least one byte for the right one.
    */
  function Tree<T>(f: Primitives<T>, input: seq<byte>, counter: nat, extra: nat): T
    decreases |input|
  {
    if |input| <= CHUNK_LEN then ChunkValue(f, input, counter, extra)
    else
      LeftFits(|input|);
      var left := Pow2(LeftLevel(Chunks(|input|), 0));
      Parent(f, Tree(f, input[..CHUNK_LEN * left], counter, 0), Tree(f, input[CHUNK_LEN * left..], counter + left, 0), extra)
  }

  /** The digest of an input. */
  function Digest<T>(f: Primitives<T>, input: seq<byte>): seq<byte>
  {
    f.bytes(Tree(f, input, 0, ROOT))
  }

  // ----- the stack -----

  /** The complete subtree of 2^j chunks from chunk c on. */
  function Full<T>(f: Primitives<T>, s: seq<byte>, c: nat, j: nat): T
    requires CHUNK_LEN * (c + Pow2(j)) <= |s|
    decreases j
  {
    if j == 0 then ChunkValue(f, s[CHUNK_LEN * c..CHUNK_LEN * (c + 1)], c, 0)
    else
      var h := Pow2(j - 1);
      PowerTwice(j - 1);
      Parent(f, Full(f, s, c, j - 1), Full(f, s, c + h, j - 1), 0)
  }

  /** The subtrees that make up the first t * 2^j chunks, one for each set bit of t, largest first. */
  function Stack<T>(f: Primitives<T>, s: seq<byte>, t: nat, j: nat): seq<T>
    requires CHUNK_LEN * (t * Pow2(j)) <= |s|
    decreases t
  {
    if t == 0 then []
    else
      HalfScaled(t, j);
      if t % 2 == 1 then Stack(f, s, t / 2, j + 1) + [Full(f, s, (t - 1) * Pow2(j), j)]
      else Stack(f, s, t / 2, j + 1)
  }

  lemma HalfScaled(t: nat, j: nat)
    requires t > 0
    ensures (t / 2) * Pow2(j + 1) == (if t % 2 == 1 then t - 1 else t) * Pow2(j) <= t * Pow2(j)
    ensures (t - 1) * Pow2(j) + Pow2(j) == t * Pow2(j)
  {
    MulAssoc(t / 2, 2, Pow2(j));
    MulAddLeft(t - 1, 1, Pow2(j));
    MulLe(t - 1, t, Pow2(j));
  }

  function Ones(t: nat): nat { if t == 0 then 0 else Ones(t / 2) + t % 2 }

  /** One stack entry for each set bit of the number of chunks. */
  lemma {:induction false} StackLength<T>(f: Primitives<T>, s: seq<byte>, t: nat, j: nat)
    requires CHUNK_LEN * (t * Pow2(j)) <= |s|
    ensures |Stack(f, s, t, j)| == Ones(t)
    decreases t
  {
    if t > 0 {
      HalfScaled(t, j);
      StackLength(f, s, t / 2, j + 1);
    }
  }

  lemma {:induction false} OnesBound(t: nat, n: nat)
    requires t < Pow2(n)
    ensures Ones(t) <= n
  {
    if t > 0 {
      OnesBound(t / 2, n - 1);
    }
  }

  // ----- complete subtrees and the final fold are the left-balanced tree -----

  lemma {:induction false} LevelIs(n: nat, i: nat, j: nat)
    requires i <= j && Pow2(i) < n && Pow2(j) < n <= 2 * Pow2(j)
    ensures LeftLevel(n, i) == j
    decreases j - i
  {
    if i < j {
      Pow2Monotone(i + 1, j);
      LevelIs(n, i + 1, j);
    } else {
      assert LeftLevel(n, j) == j;
    }
  }

  lemma ChunkCount(n: nat, p: nat)
    requires 1 <= p && CHUNK_LEN * p < n <= 2 * (CHUNK_LEN * p)
    ensures p < Chunks(n) <= 2 * p
  {
  }

  lemma {:induction false} TreeSplits<T>(f: Primitives<T>, input: seq<byte>, counter: nat, extra: nat, left: nat)
    requires CHUNK_LEN < |input| && CHUNK_LEN * left < |input| && 0 < left == Pow2(LeftLevel(Chunks(|input|), 0))
    ensures Tree(f, input, counter, extra)
            == Parent(f, Tree(f, input[..CHUNK_LEN * left], counter, 0), Tree(f, input[CHUNK_LEN * left..], counter + left, 0), extra)
  {
    hide Pow2, Parent, ChunkValue, LeftLevel, Chunks;
  }

  /** An input of more than 2^j and at most 2^(j+1) chunks splits after 2^j chunks. */
  lemma SplitAt<T>(f: Primitives<T>, input: seq<byte>, counter: nat, extra: nat, j: nat)
    requires CHUNK_LEN * Pow2(j) < |input| <= 2 * (CHUNK_LEN * Pow2(j))
    ensures Tree(f, input, counter, extra)
            == Parent(f, Tree(f, input[..CHUNK_LEN * Pow2(j)], counter, 0), Tree(f, input[CHUNK_LEN * Pow2(j)..], counter + Pow2(j), 0), extra)
  {
    hide Pow2, Parent, ChunkValue, LeftLevel, Tree, Chunks;
    ChunkCount(|input|, Pow2(j));
    LeftFits(|input|);
    LevelIs(Chunks(|input|), 0, j);
    TreeSplits(f, input, counter, extra, Pow2(j));
  }

  lemma ChunkOffset(c: nat, p: nat)
    ensures CHUNK_LEN * (c + p) == CHUNK_LEN * c + CHUNK_LEN * p
  {
  }

  lemma FullOfTwo<T>(f: Primitives<T>, s: seq<byte>, c: nat, j: nat)
    requires j > 0 && CHUNK_LEN * (c + Pow2(j)) <= |s|
    ensures Pow2(j) == 2 * Pow2(j - 1)
    ensures Full(f, s, c, j) == Parent(f, Full(f, s, c, j - 1), Full(f, s, c + Pow2(j - 1), j - 1), 0)
  {
    hide Parent;
  }

  lemma OneChunk<T>(f: Primitives<T>, s: seq<byte>, c: nat)
    requires CHUNK_LEN * (c + Pow2(0)) <= |s|
    ensures Tree(f, s[CHUNK_LEN * c..CHUNK_LEN * (c + Pow2(0))], c, 0) == Full(f, s, c, 0)
  {
    hide ChunkValue;
    ChunkOffset(c, 1);
  }

  lemma {:induction false} FullIsTree<T>(f: Primitives<T>, s: seq<byte>, c: nat, j: nat)
    requires CHUNK_LEN * (c + Pow2(j)) <= |s|
    ensures Tree(f, s[CHUNK_LEN * c..CHUNK_LEN * (c + Pow2(j))], c, 0) == Full(f, s, c, j)
    decreases j
  {
    hide Tree, Parent, Full, Pow2;
    if j == 0 {
      OneChunk(f, s, c);
    } else {
      FullOfTwo(f, s, c, j);
      var h := Pow2(j - 1);
      var input := s[CHUNK_LEN * c..CHUNK_LEN * (c + Pow2(j))];
      ChunkOffset(c, Pow2(j));
      ChunkOffset(c, h);
      ChunkOffset(c + h, h);
      SplitAt(f, input, c, 0, j - 1);
      assert input[..CHUNK_LEN * h] == s[CHUNK_LEN * c..CHUNK_LEN * (c + h)];
      assert input[CHUNK_LEN * h..] == s[CHUNK_LEN * (c + h)..CHUNK_LEN * (c + h + h)];
      FullIsTree(f, s, c, j - 1);
      FullIsTree(f, s, c + h, j - 1);
    }
  }

  /** Merging a value with the whole stack, from the top down; extra marks the last merge. */
  function Fold<T>(f: Primitives<T>, stack: seq<T>, x: T, extra: nat): T
  {
    if stack == [] then x
    else
      var n := |stack| - 1;
      Fold(f, stack[..n], Parent(f, stack[n], x, if n == 0 then extra else 0), extra)
  }

  lemma FoldTop<T>(f: Primitives<T>, stack: seq<T>, top: T, x: T, extra: nat)
    ensures Fold(f, stack + [top], x, extra) == Fold(f, stack, Parent(f, top, x, if stack == [] then extra else 0), extra)
  {
    hide Parent;
    assert (stack + [top])[..|stack|] == stack;
  }

  /** One stack entry and the part to its right, of at most the same size, make one subtree. */
  lemma JoinRight<T>(f: Primitives<T>, s: seq<byte>, c: nat, j: nat, extra: nat)
    requires CHUNK_LEN * (c + Pow2(j)) < |s| <= CHUNK_LEN * (c + Pow2(j)) + CHUNK_LEN * Pow2(j)
    ensures Parent(f, Full(f, s, c, j), Tree(f, s[CHUNK_LEN * (c + Pow2(j))..], c + Pow2(j), 0), extra)
            == Tree(f, s[CHUNK_LEN * c..], c, extra)
  {
    hide Tree, Parent, Full, Pow2;
    var p, input := Pow2(j), s[CHUNK_LEN * c..];
    ChunkOffset(c, p);
    SplitAt(f, input, c, extra, j);
    assert input[..CHUNK_LEN * p] == s[CHUNK_LEN * c..CHUNK_LEN * (c + p)];
    assert input[CHUNK_LEN * p..] == s[CHUNK_LEN * (c + p)..];
    FullIsTree(f, s, c, j);
  }

  /** Folding the last chunk into the stack gives the tree of the whole input, with ROOT applied once. */
  lemma {:induction false} FoldIsTree<T>(f: Primitives<T>, s: seq<byte>, t: nat, j: nat, x: T, extra: nat)
    requires CHUNK_LEN * (t * Pow2(j)) <= |s| <= CHUNK_LEN * (t * Pow2(j)) + CHUNK_LEN * Pow2(j)
    requires t > 0 ==> CHUNK_LEN * (t * Pow2(j)) < |s|
    requires x == Tree(f, s[CHUNK_LEN * (t * Pow2(j))..], t * Pow2(j), if t == 0 then extra else 0)
    ensures Fold(f, Stack(f, s, t, j), x, extra) == Tree(f, s, 0, extra)
    decreases t
  {
    hide Tree, Parent, Full, Fold;
    if t == 0 {
      FoldEmpty(f, x, extra);
      ZeroTimes(j);
      assert s[0..] == s;
    } else {
      var p := Pow2(j);
      HalfScaled(t, j);
      assert Pow2(j + 1) == 2 * p;
      if t % 2 == 1 {
        var c := (t - 1) * p;
        StackEmpty(f, s, t / 2, j + 1);
        var e := if t == 1 then extra else 0;
        FoldTop(f, Stack(f, s, t / 2, j + 1), Full(f, s, c, j), x, extra);
        JoinRight(f, s, c, j, e);
        FoldIsTree(f, s, t / 2, j + 1, Tree(f, s[CHUNK_LEN * c..], c, e), extra);
      } else {
        FoldIsTree(f, s, t / 2, j + 1, x, extra);
      }
    }
  }

  lemma FoldEmpty<T>(f: Primitives<T>, x: T, extra: nat)
    ensures Fold(f, [], x, extra) == x
  {
  }

  lemma ZeroTimes(j: nat)
    ensures 0 * Pow2(j) == 0 && CHUNK_LEN * (0 * Pow2(j)) == 0
  {
  }

  lemma {:induction false} StackEmpty<T>(f: Primitives<T>, s: seq<byte>, t: nat, j: nat)
    requires CHUNK_LEN * (t * Pow2(j)) <= |s|
    ensures Stack(f, s, t, j) == [] <==> t == 0
    decreases t
  {
    if t > 0 {
      HalfScaled(t, j);
      StackEmpty(f, s, t / 2, j + 1);
    }
  }

  // ----- more input does not change what is done -----

  lemma {:induction false} StateKept<T>(f: Primitives<T>, chunk: seq<byte>, more: seq<byte>, b: nat, counter: nat)
    requires BLOCK_LEN * b <= |chunk|
    ensures ChunkState(f, chunk + more, b, counter) == ChunkState(f, chunk, b, counter)
  {
    if b > 0 {
      StateKept(f, chunk, more, b - 1, counter);
      assert (chunk + more)[BLOCK_LEN * (b - 1)..BLOCK_LEN * b] == chunk[BLOCK_LEN * (b - 1)..BLOCK_LEN * b];
    }
  }

  lemma {:induction false} FullKept<T>(f: Primitives<T>, s: seq<byte>, more: seq<byte>, c: nat, j: nat)
    requires CHUNK_LEN * (c + Pow2(j)) <= |s|
    ensures Full(f, s + more, c, j) == Full(f, s, c, j)
    decreases j
  {
    hide ChunkValue, Parent, Full, Pow2;
    if j == 0 {
      FullChunk(f, s, c);
      FullChunk(f, s + more, c);
      assert (s + more)[CHUNK_LEN * c..CHUNK_LEN * (c + 1)] == s[CHUNK_LEN * c..CHUNK_LEN * (c + 1)];
    } else {
      PowerTwice(j - 1);
      FullHalves(f, s, c, j, Pow2(j - 1));
      FullHalves(f, s + more, c, j, Pow2(j - 1));
      FullKept(f, s, more, c, j - 1);
      FullKept(f, s, more, c + Pow2(j - 1), j - 1);
    }
  }

  lemma FullChunk<T>(f: Primitives<T>, s: seq<byte>, c: nat)
    requires CHUNK_LEN * (c + 1) <= |s|
    ensures Pow2(0) == 1 && Full(f, s, c, 0) == ChunkValue(f, s[CHUNK_LEN * c..CHUNK_LEN * (c + 1)], c, 0)
  {
    hide ChunkValue;
  }

  lemma FullHalves<T>(f: Primitives<T>, s: seq<byte>, c: nat, j: nat, h: nat)
    requires j > 0 && h == Pow2(j - 1) && Pow2(j) == 2 * h && CHUNK_LEN * (c + 2 * h) <= |s|
    ensures Full(f, s, c, j) == Parent(f, Full(f, s, c, j - 1), Full(f, s, c + h, j - 1), 0)
  {
    hide Parent, Pow2;
  }

  lemma {:induction false} StackKept<T>(f: Primitives<T>, s: seq<byte>, more: seq<byte>, t: nat, j: nat)
    requires CHUNK_LEN * (t * Pow2(j)) <= |s|
    ensures Stack(f, s + more, t, j) == Stack(f, s, t, j)
    decreases t
  {
    hide Full;
    if t > 0 {
      HalfScaled(t, j);
      StackKept(f, s, more, t / 2, j + 1);
      if t % 2 == 1 {
        FullKept(f, s, more, (t - 1) * Pow2(j), j);
      }
    }
  }

  lemma StackStep<T>(f: Primitives<T>, s: seq<byte>, t: nat, j: nat)
    requires CHUNK_LEN * (t * Pow2(j) + Pow2(j)) <= |s| && (t + 1) * Pow2(j) == t * Pow2(j) + Pow2(j)
    ensures t % 2 == 1 ==>
      && (t / 2) * Pow2(j + 1) + Pow2(j + 1) == t * Pow2(j) + Pow2(j)
      && (t / 2 + 1) * Pow2(j + 1) == (t / 2) * Pow2(j + 1) + Pow2(j + 1)
      && Stack(f, s, t, j) == Stack(f, s, t / 2, j + 1) + [Full(f, s, (t / 2) * Pow2(j + 1), j)]
      && Stack(f, s, t + 1, j) == Stack(f, s, t / 2 + 1, j + 1)
      && Parent(f, Full(f, s, (t / 2) * Pow2(j + 1), j), Full(f, s, t * Pow2(j), j), 0) == Full(f, s, (t / 2) * Pow2(j + 1), j + 1)
    ensures t % 2 == 0 ==> Stack(f, s, t + 1, j) == Stack(f, s, t, j) + [Full(f, s, t * Pow2(j), j)]
  {
    hide Parent;
    if t % 2 == 1 {
      HalfScaled(t, j);
      HalfScaled(t + 1, j);
      MulAddLeft(t / 2, 1, Pow2(j + 1));
      assert (t + 1) / 2 == t / 2 + 1;
    } else {
      HalfScaled(t + 1, j);
      assert (t + 1) / 2 == t / 2;
      if t > 0 {
        HalfScaled(t, j);
      }
      StackEmptyZero(f, s, j + 1);
    }
  }

  lemma StackEmptyZero<T>(f: Primitives<T>, s: seq<byte>, j: nat)
    ensures 0 * Pow2(j) == 0 && Stack(f, s, 0, j) == []
  {
  }

  /** While merging: the stack and the new value together stand for k + 1 chunks, in units of 2^j. */
  ghost predicate Merging<T(!new)>(f: Primitives<T>, s: seq<byte>, k: nat, st: seq<T>, total: nat, j: nat, newCv: T)
  {
    && total * Pow2(j) + Pow2(j) == k + 1 && (total + 1) * Pow2(j) == k + 1 && CHUNK_LEN * (k + 1) <= |s|
    && CHUNK_LEN * (total * Pow2(j)) <= |s|
    && CHUNK_LEN * ((k + 1) * Pow2(0)) <= |s|
    && st == Stack(f, s, total, j) && newCv == Full(f, s, total * Pow2(j), j)
    && Stack(f, s, total + 1, j) == Stack(f, s, k + 1, 0)
  }

  lemma PowerZero()
    ensures Pow2(0) == 1
  {
  }

  lemma MergeStart<T(!new)>(f: Primitives<T>, s: seq<byte>, k: nat, st: seq<T>, x: T)
    requires CHUNK_LEN * (k + 1) <= |s| && CHUNK_LEN * (k * Pow2(0)) <= |s| && CHUNK_LEN * (k + Pow2(0)) <= |s|
    requires st == Stack(f, s, k, 0) && x == Full(f, s, k, 0)
    ensures Merging(f, s, k, st, k, 0, x)
  {
    hide Stack, Full;
    assert Pow2(0) == 1;
  }

  lemma OddScaled(h: nat, j: nat)
    ensures h * Pow2(j + 1) + Pow2(j) == (2 * h + 1) * Pow2(j) && h * Pow2(j + 1) + Pow2(j + 1) == (2 * h + 1) * Pow2(j) + Pow2(j)
    ensures (h + 1) * Pow2(j + 1) == h * Pow2(j + 1) + Pow2(j + 1) == (2 * h + 1 + 1) * Pow2(j)
  {
    var p := Pow2(j);
    MulAddLeft(2 * h, 1, p);
    MulAddLeft(2 * h + 1, 1, p);
    MulAddLeft(h, 1, 2 * p);
    MulAssoc(h, 2, p);
  }

  lemma MergeStep<T(!new)>(f: Primitives<T>, s: seq<byte>, k: nat, st: seq<T>, total: nat, j: nat, newCv: T)
    requires Merging(f, s, k, st, total, j, newCv) && total % 2 == 1
    ensures |st| > 0 && Merging(f, s, k, st[..|st| - 1], total / 2, j + 1, Parent(f, st[|st| - 1], newCv, 0))
  {
    hide Stack, Full, Parent, Pow2;
    var h := total / 2;
    assert total == 2 * h + 1;
    OddScaled(h, j);
    PowerTwice(j);
    StackStep(f, s, total, j);
    var b, top := Stack(f, s, h, j + 1), Full(f, s, h * Pow2(j + 1), j);
    assert st[..|st| - 1] == b && st[|st| - 1] == top;
  }

  lemma MergeEnd<T(!new)>(f: Primitives<T>, s: seq<byte>, k: nat, st: seq<T>, total: nat, j: nat, newCv: T)
    requires Merging(f, s, k, st, total, j, newCv) && total % 2 == 0
    ensures CHUNK_LEN * ((k + 1) * Pow2(0)) <= |s| && st + [newCv] == Stack(f, s, k + 1, 0)
  {
    hide Stack, Full, Parent, Pow2;
    StackStep(f, s, total, j);
  }

  /** The incremental hasher. */
  class Hasher<T(!new)> {
    const f: Primitives<T>
    const buf: array<byte>
    const cvStack: array<T>
    var cv: T
    var bufLen: nat
    var stackLen: nat
    var chunkCounter: nat
    var blocks: nat
    ghost var input: seq<byte>  // everything fed in

    ghost function Rest(): seq<byte>
      reads this
      requires CHUNK_LEN * chunkCounter <= |input|
    {
      input[CHUNK_LEN * chunkCounter..]
    }

    /** The current chunk's place and state; the stack holds the complete subtrees before it. */
    ghost predicate Core()
      reads this, buf, cvStack
    {
      && buf.Length == BLOCK_LEN && cvStack.Length == STACK_SIZE && bufLen <= BLOCK_LEN && blocks <= 15 && stackLen <= STACK_SIZE
      && CHUNK_LEN * chunkCounter <= |input| && |Rest()| == BLOCK_LEN * blocks + bufLen
      && buf[..bufLen] == Rest()[BLOCK_LEN * blocks..]
      && cv == ChunkState(f, Rest(), blocks, chunkCounter)
      && cvStack[..stackLen] == Stack(f, input, chunkCounter, 0)
    }

    /** The last block is kept back, so that it can still become the end of its chunk or of the input. */
    ghost predicate Valid()
      reads this, buf, cvStack
    {
      Core() && (chunkCounter > 0 || blocks > 0 ==> bufLen > 0)
    }

    constructor (f: Primitives<T>)
      ensures Valid() && this.f == f && input == [] && fresh(buf) && fresh(cvStack)
    {
      this.f, input := f, [];
      cv, bufLen, stackLen, chunkCounter, blocks := f.iv, 0, 0, 0, 0;
      buf := new byte[BLOCK_LEN](_ => 0);
      cvStack := new T[STACK_SIZE](_ => f.iv);
    }

    /** The chaining value of the current chunk as if it ended here. */
    method ChunkFinalize() returns (r: T)
      requires Valid()
      ensures r == ChunkValue(f, Rest(), chunkCounter, 0)
    {
      hide ChunkState, Stack;
      var block := buf[..bufLen];
      r := f.compress(cv, Pad(block), bufLen, chunkCounter, CHUNK_END + StartFlag(blocks));
      LastBlock(|Rest()|, blocks, bufLen);
    }

    lemma LastBlock(n: nat, b: nat, m: nat)
      requires n == BLOCK_LEN * b + m && m <= BLOCK_LEN && (b > 0 ==> m > 0)
      ensures InnerBlocks(n) == b
    {
    }

    /** Merges the new chunk with as many stack entries as the counter has low one bits. */
    method PushCv(x: T)
      requires buf.Length == BLOCK_LEN && cvStack.Length == STACK_SIZE && stackLen <= STACK_SIZE
      requires CHUNK_LEN * (chunkCounter + 1) <= |input| < 0x1_0000_0000_0000_0000
      requires cvStack[..stackLen] == Stack(f, input, chunkCounter, 0) && x == Full(f, input, chunkCounter, 0)
      modifies cvStack, this`stackLen
      ensures stackLen <= STACK_SIZE && cvStack[..stackLen] == Stack(f, input, chunkCounter + 1, 0)
    {
      hide Stack, Full, Parent, Pow2, Merging;
      ghost var s, k, j: nat := input, chunkCounter, 0;
      PowerZero();
      MergeStart(f, s, k, cvStack[..stackLen], x);
      var newCv, total := x, chunkCounter;
      while total % 2 == 1
        invariant stackLen <= STACK_SIZE && Merging(f, s, k, cvStack[..stackLen], total, j, newCv)
        decreases total
      {
        MergeStep(f, s, k, cvStack[..stackLen], total, j, newCv);
        assert cvStack[..stackLen][..stackLen - 1] == cvStack[..stackLen - 1];
        stackLen := stackLen - 1;
        newCv := Parent(f, cvStack[stackLen], newCv, 0);
        total := total / 2;
        j := j + 1;
      }
      MergeEnd(f, s, k, cvStack[..stackLen], total, j, newCv);
      StackRoom(s, k);
      assert |cvStack[..stackLen] + [newCv]| <= STACK_SIZE;
      cvStack[stackLen] := newCv;
      stackLen := stackLen + 1;
      assert cvStack[..stackLen] == cvStack[..stackLen - 1] + [newCv];
    }

    /** 54 entries are enough for any input of less than 2^64 bytes. */
    lemma StackRoom(s: seq<byte>, k: nat)
      requires CHUNK_LEN * (k + 1) <= |s| < 0x1_0000_0000_0000_0000
      ensures CHUNK_LEN * ((k + 1) * Pow2(0)) <= |s| && |Stack(f, s, k + 1, 0)| <= STACK_SIZE
    {
      assert Pow2(0) == 1;
      StackLength(f, s, k + 1, 0);
      Pow54();
      OnesBound(k + 1, 54);
    }

    lemma Pow54()
      ensures Pow2(54) == 0x40_0000_0000_0000
    {
      Pow2Values();
      Pow2Add(16, 16);
      Pow2Add(32, 16);
      Pow2Add(48, 6);
      assert Pow2(6) == 64;
    }

    lemma ChunkDone()
      requires Valid() && bufLen == BLOCK_LEN && blocks == 15
      ensures |Rest()| == CHUNK_LEN && CHUNK_LEN * (chunkCounter + 1) == |input|
      ensures ChunkValue(f, Rest(), chunkCounter, 0) == Full(f, input, chunkCounter, 0)
    {
      assert Pow2(0) == 1;
      assert input[CHUNK_LEN * chunkCounter..CHUNK_LEN * (chunkCounter + 1)] == Rest();
      hide ChunkValue;
    }

    lemma BlockDone()
      requires Valid() && bufLen == BLOCK_LEN && blocks < 15
      ensures f.compress(cv, buf[..BLOCK_LEN], BLOCK_LEN, chunkCounter, StartFlag(blocks))
              == ChunkState(f, Rest(), blocks + 1, chunkCounter)
    {
      assert Rest()[BLOCK_LEN * blocks..BLOCK_LEN * (blocks + 1)] == Rest()[BLOCK_LEN * blocks..];
    }

    /** Before more input: a full buffer goes into the chunk, a full chunk onto the stack. */
    method MakeRoom()
      requires Valid() && |input| < 0x1_0000_0000_0000_0000
      modifies this`cv, this`bufLen, this`stackLen, this`chunkCounter, this`blocks, cvStack
      ensures Core() && bufLen < BLOCK_LEN
    {
      hide ChunkState, Stack, Full, ChunkValue, InnerBlocks, Pow2;
      if bufLen == BLOCK_LEN {
        if blocks == 15 {
          var chunkCv := ChunkFinalize();
          ChunkDone();
          ghost var x := buf[..bufLen];
          PushCv(chunkCv);
          chunkCounter := chunkCounter + 1;
          cv := f.iv;
          blocks := 0;
          assert Rest() == [];
          FreshChunk();
        } else {
          BlockDone();
          assert buf[..BLOCK_LEN] == buf[..bufLen];
          cv := f.compress(cv, buf[..BLOCK_LEN], BLOCK_LEN, chunkCounter, StartFlag(blocks));
          blocks := blocks + 1;
        }
        bufLen := 0;
        assert buf[..0] == [];
      }
    }

    lemma FreshChunk()
      ensures ChunkState(f, [], 0, chunkCounter) == f.iv
    {
    }

    lemma CoreKept(more: seq<byte>)
      requires Core()
      ensures (input + more)[CHUNK_LEN * chunkCounter..] == Rest() + more
      ensures ChunkState(f, Rest() + more, blocks, chunkCounter) == cv
      ensures CHUNK_LEN * (chunkCounter * Pow2(0)) <= |input + more|
      ensures Stack(f, input + more, chunkCounter, 0) == cvStack[..stackLen]
      ensures (Rest() + more)[BLOCK_LEN * blocks..] == buf[..bufLen] + more
    {
      hide ChunkState, Stack;
      StateKept(f, Rest(), more, blocks, chunkCounter);
      StackKept(f, input, more, chunkCounter, 0);
    }

    /** Copies input into the buffer. */
    method Take(piece: seq<byte>)
      requires Core() && 1 <= |piece| <= BLOCK_LEN - bufLen
      modifies this`bufLen, this`input, buf
      ensures Valid() && input == old(input) + piece
    {
      hide ChunkState, Stack;
      ghost var kept := buf[..bufLen];
      CoreKept(piece);
      forall k | 0 <= k < |piece| {
        buf[bufLen + k] := piece[k];
      }
      bufLen := bufLen + |piece|;
      assert buf[..bufLen] == kept + piece;
      input := input + piece;
    }

    /** Feeds in more data, in any portions. */
    method Update(data: seq<byte>)
      requires Valid() && |input| + |data| < 0x1_0000_0000_0000_0000
      modifies this`cv, this`bufLen, this`stackLen, this`chunkCounter, this`blocks, this`input, cvStack, buf
      ensures Valid() && input == old(input) + data
    {
      hide Hasher.Valid, Hasher.Core;
      ghost var before := input;
      var p := 0;
      while p < |data|
        invariant p <= |data| && Valid() && input == before + data[..p]
      {
        MakeRoom();
        var take := BLOCK_LEN - bufLen;
        if take > |data| - p {
          take := |data| - p;
        }
        Take(data[p..p + take]);
        assert data[..p] + data[p..p + take] == data[..p + take];
        p := p + take;
      }
      assert data[..p] == data;
    }

    /** The digest of everything fed in so far; the state is left as it is. */
    method Final() returns (out: seq<byte>)
      requires Valid()
      ensures out == Digest(f, input)
    {
      hide ChunkState, Stack, Tree, ChunkValue, InnerBlocks, Pow2, Fold;
      ghost var stack := cvStack[..stackLen];
      FinalTree();
      if stackLen == 0 {
        LastBlock(|Rest()|, blocks, bufLen);
        var block := buf[..bufLen];
        var cv1 := f.compress(cv, Pad(block), bufLen, 0, CHUNK_END + ROOT + StartFlag(blocks));
        OnlyChunk();
        return f.bytes(cv1);
      }
      var cv2 := ChunkFinalize();
      var i := stackLen;
      assert stack[..i] == stack;
      while i > 0
        invariant 0 <= i <= stackLen && Fold(f, stack[..i], cv2, ROOT) == Tree(f, input, 0, ROOT)
      {
        assert stack[..i][..i - 1] == stack[..i - 1];
        FoldOnce(stack[..i], cv2);
        i := i - 1;
        cv2 := Parent(f, cvStack[i], cv2, if i == 0 then ROOT else 0);
      }
      assert stack[..0] == [];
      FoldEmpty(f, cv2, ROOT);
      out := f.bytes(cv2);
    }

    lemma FoldOnce(stack: seq<T>, x: T)
      requires stack != []
      ensures Fold(f, stack, x, ROOT)
              == Fold(f, stack[..|stack| - 1], Parent(f, stack[|stack| - 1], x, if |stack| == 1 then ROOT else 0), ROOT)
    {
      hide Parent;
    }

    /** The last chunk folded into the stack is the tree of the input. */
    lemma FinalTree()
      requires Valid()
      ensures stackLen == 0 <==> chunkCounter == 0
      ensures stackLen > 0 ==>
                Fold(f, cvStack[..stackLen], ChunkValue(f, Rest(), chunkCounter, 0), ROOT) == Tree(f, input, 0, ROOT)
      ensures stackLen == 0 ==> Rest() == input && Tree(f, input, 0, ROOT) == ChunkValue(f, input, 0, ROOT)
    {
      hide ChunkState, Stack, ChunkValue, Fold;
      assert Pow2(0) == 1;
      StackEmpty(f, input, chunkCounter, 0);
      assert |cvStack[..stackLen]| == stackLen;
      if stackLen > 0 {
        FoldIsTree(f, input, chunkCounter, 0, ChunkValue(f, Rest(), chunkCounter, 0), ROOT);
      }
    }

    lemma OnlyChunk()
      requires Valid() && chunkCounter == 0 && Rest() == input
      ensures f.compress(cv, Pad(buf[..bufLen]), bufLen, 0, CHUNK_END + ROOT + StartFlag(blocks)) == ChunkValue(f, input, 0, ROOT)
    {
      hide ChunkState;
      LastBlock(|Rest()|, blocks, bufLen);
    }
  }

  /** One-shot hashing. */
  method Hash<T(!new)>(f: Primitives<T>, data: seq<byte>) returns (out: seq<byte>)
    requires |data| < 0x1_0000_0000_0000_0000
    ensures out == Digest(f, data)
  {
    var ctx := new Hasher(f);
    ctx.Update(data);
    assert [] + data == data;
    out := ctx.Final();
  }
}
