/** Damage protection of 1992 archives: parity sectors and a table of checksums, and the repair of damaged sectors. */
module DamagePro {
  import opened BitStrings

  const SECTOR := 512
  const TABLE_BLOCK := 128

  type Bytes = seq<bv8>

  /** A 16-bit word as it lies in memory. */
  datatype Word = Word(lo: bv8, hi: bv8)

  /** The checksums of a sector and of the table are not interpreted. */
  datatype Checks = Checks(sector: Bytes -> Word, table: Bytes -> Word)

  ghost predicate Sectors(s: seq<Bytes>) { forall i :: 0 <= i < |s| ==> |s[i]| == SECTOR }

  // ----- parity -----

  function Xor(a: Bytes, b: Bytes): (c: Bytes)
    requires |a| == |b|
    ensures |c| == |a| && forall k :: 0 <= k < |a| ==> c[k] == a[k] ^ b[k]
  {
    seq(|a|, k requires 0 <= k < |a| => a[k] ^ b[k])
  }

  function Blank(): (z: Bytes)
    ensures |z| == SECTOR && forall k :: 0 <= k < SECTOR ==> z[k] == 0
  {
    seq(SECTOR, _ => 0)
  }

  lemma XorOrder(a: Bytes, b: Bytes, c: Bytes)
    requires |a| == |b| == |c|
    ensures Xor(Xor(a, b), c) == Xor(Xor(a, c), b)
  {
    var x, y := Xor(Xor(a, b), c), Xor(Xor(a, c), b);
    forall k | 0 <= k < |a| ensures x[k] == y[k] {
      XorBits(a[k], b[k], c[k]);
    }
    assert x == y;
  }

  lemma XorTwice(a: Bytes, b: Bytes)
    requires |a| == |b|
    ensures Xor(a, Xor(a, b)) == b
  {
    var x := Xor(a, Xor(a, b));
    forall k | 0 <= k < |a| ensures x[k] == b[k] {
      XorBits(a[k], b[k], b[k]);
    }
    assert x == b;
  }

  lemma XorBits(a: bv8, b: bv8, c: bv8)
    ensures (a ^ b) ^ c == (a ^ c) ^ b && a ^ (a ^ b) == b
  {
  }

  /** How many parity sectors protect n sectors. */
  function Calc(n: nat): (m: nat)
    ensures 1 <= m <= 16
  {
    if n < 200 then 1 else if n < 400 then 2 else if n < 800 then 4 else if n < 1600 then 8 else 16
  }

  /** The least power of two that leaves fewer than 200 sectors to each parity sector, as long as 16 of them are enough. */
  lemma CalcLeast(n: nat)
    ensures Calc(n) in {1, 2, 4, 8, 16}
    ensures if n < 3200 then n < 200 * Calc(n) else Calc(n) == 16
    ensures forall m :: m in {1, 2, 4, 8, 16} && m < Calc(n) ==> n >= 200 * m
  {
  }

  /** The exclusive or of the first n sectors whose number leaves remainder x, sector `skip` left out. */
  function Parity(s: seq<Bytes>, n: nat, x: nat, m: nat, skip: int): (p: Bytes)
    requires Sectors(s) && n <= |s| && m > 0
    ensures |p| == SECTOR
  {
    if n == 0 then Blank()
    else if (n - 1) % m == x && n - 1 != skip then Xor(Parity(s, n - 1, x, m, skip), s[n - 1])
    else Parity(s, n - 1, x, m, skip)
  }

  /** The full parity is that of the others and the sector left out. */
  lemma {:induction false} ParitySplit(s: seq<Bytes>, n: nat, x: nat, m: nat, i: nat)
    requires Sectors(s) && n <= |s| && m > 0 && i % m == x
    ensures Parity(s, n, x, m, -1) == if i < n then Xor(Parity(s, n, x, m, i), s[i]) else Parity(s, n, x, m, i)
  {
    if n > 0 {
      ParitySplit(s, n - 1, x, m, i);
      if (n - 1) % m == x && i < n - 1 {
        XorOrder(Parity(s, n - 1, x, m, i), s[i], s[n - 1]);
      }
    }
  }

  /** Sectors of the same class that agree have the same parity. */
  lemma {:induction false} SameParity(s: seq<Bytes>, t: seq<Bytes>, n: nat, x: nat, m: nat, i: int)
    requires Sectors(s) && Sectors(t) && n <= |s| == |t| && m > 0
    requires forall j :: 0 <= j < n && j % m == x && j != i ==> t[j] == s[j]
    ensures Parity(t, n, x, m, i) == Parity(s, n, x, m, i)
  {
    if n > 0 {
      SameParity(s, t, n - 1, x, m, i);
    }
  }

  /** No sector of the class lies between two that are m apart. */
  lemma {:induction false} ParityGap(s: seq<Bytes>, j: nat, n: nat, x: nat, m: nat, i: int)
    requires Sectors(s) && m > 0 && j % m == x && j < n <= |s| && n <= j + m
    ensures Parity(s, n, x, m, i) == Parity(s, j + 1, x, m, i)
  {
    if n > j + 1 {
      var k := n - 1 - j;
      GapRemainder(j, k, m);
      ParityGap(s, j, n - 1, x, m, i);
    }
  }

  lemma GapRemainder(j: nat, k: nat, m: nat)
    requires 0 < k < m
    ensures (j + k) % m != j % m
  {
    var q, r := j / m, j % m;
    assert j == q * m + r;
    if r + k < m {
      DivModUnique(q, m, r + k);
    } else {
      MulAddLeft(q, 1, m);
      DivModUnique(q + 1, m, r + k - m);
    }
  }

  lemma NextOfClass(j: nat, m: nat)
    requires m > 0
    ensures (j + m) % m == j % m
  {
    MulAddLeft(j / m, 1, m);
    DivModUnique(j / m + 1, m, j % m);
  }

  // ----- the protected file -----

  /** The number of sectors; a full last sector is followed by an empty one. */
  function SectorCount(len: nat): (n: nat)
    ensures n >= 1 && SECTOR * (n - 1) <= len < SECTOR * n
  {
    len / SECTOR + 1
  }

  function Flat(s: seq<Bytes>): (b: Bytes)
    requires Sectors(s)
    ensures |b| == SECTOR * |s|
  {
    if s == [] then [] else Flat(s[..|s| - 1]) + s[|s| - 1]
  }

  lemma {:induction false} FlatAt(s: seq<Bytes>, i: nat)
    requires Sectors(s) && i < |s|
    ensures Flat(s)[SECTOR * i..SECTOR * i + SECTOR] == s[i]
  {
    var n := |s| - 1;
    if i < n {
      FlatAt(s[..n], i);
      SliceLeft(Flat(s[..n]), s[n], SECTOR * i, SECTOR * i + SECTOR);
    } else {
      assert (Flat(s[..n]) + s[n])[SECTOR * n..] == s[n];
    }
  }

  lemma SliceLeft(x: Bytes, y: Bytes, a: nat, b: nat)
    requires a <= b <= |x|
    ensures (x + y)[a..b] == x[a..b]
  {
  }

  /** The sectors of a file. */
  function Cut(f: Bytes, n: nat): (s: seq<Bytes>)
    requires SECTOR * n <= |f|
    ensures |s| == n && Sectors(s) && forall i :: 0 <= i < n ==> s[i] == f[SECTOR * i..SECTOR * i + SECTOR]
  {
    seq(n, i requires 0 <= i < n => f[SECTOR * i..SECTOR * i + SECTOR])
  }

  lemma {:induction false} FlatCut(f: Bytes, n: nat)
    requires SECTOR * n <= |f|
    ensures Flat(Cut(f, n)) == f[..SECTOR * n]
  {
    if n > 0 {
      var c := Cut(f, n);
      assert c[..n - 1] == Cut(f, n - 1);
      FlatCut(f, n - 1);
      assert f[..SECTOR * (n - 1)] + f[SECTOR * (n - 1)..SECTOR * n] == f[..SECTOR * n];
    }
  }

  function WordBytes(w: Word): Bytes { [w.lo, w.hi] }

  function TableBytes(t: seq<Word>): (b: Bytes)
    ensures |b| == 2 * |t|
  {
    if t == [] then [] else TableBytes(t[..|t| - 1]) + WordBytes(t[|t| - 1])
  }

  function Checksums(c: Checks, s: seq<Bytes>): (t: seq<Word>)
    ensures |t| == |s| && forall i :: 0 <= i < |s| ==> t[i] == c.sector(s[i])
  {
    seq(|s|, i requires 0 <= i < |s| => c.sector(s[i]))
  }

  function Parities(s: seq<Bytes>, m: nat): (p: seq<Bytes>)
    requires Sectors(s) && m > 0
    ensures |p| == m && Sectors(p) && forall x :: 0 <= x < m ==> p[x] == Parity(s, |s|, x, m, -1)
  {
    seq(m, x requires 0 <= x < m => Parity(s, |s|, x, m, -1))
  }

  /** What is written behind the sectors. */
  function Records(c: Checks, s: seq<Bytes>): Bytes
    requires Sectors(s)
  {
    var t := TableBytes(Checksums(c, s));
    Flat(Parities(s, Calc(|s|))) + t + WordBytes(c.table(t))
  }

  // ----- what a repair makes of a sector -----

  /** The sector itself if its checksum is right, else what parity and the other sectors say, if that has the checksum. */
  function Mended(c: Checks, s: seq<Bytes>, parity: seq<Bytes>, t: seq<Word>, i: nat): (r: Bytes)
    requires Sectors(s) && Sectors(parity) && |parity| == Calc(|s|) && |t| == |s| && i < |s|
    ensures |r| == SECTOR
  {
    var other := Rebuilt(s, parity, i);
    if c.sector(s[i]) == t[i] then s[i] else if c.sector(other) == t[i] then other else s[i]
  }

  function Rebuilt(s: seq<Bytes>, parity: seq<Bytes>, i: nat): (r: Bytes)
    requires Sectors(s) && Sectors(parity) && |parity| == Calc(|s|) && i < |s|
    ensures |r| == SECTOR
  {
    var m := Calc(|s|);
    Xor(Parity(s, |s|, i % m, m, i), parity[i % m])
  }

  ghost predicate Trusted(c: Checks, s: seq<Bytes>, parity: seq<Bytes>, t: seq<Word>, i: nat)
    requires Sectors(s) && Sectors(parity) && |parity| == Calc(|s|) && |t| == |s| && i < |s|
  {
    c.sector(s[i]) == t[i] || c.sector(Rebuilt(s, parity, i)) == t[i]
  }

  /** At most one sector of each class differs, and each differing one has a different checksum. */
  ghost predicate LightlyDamaged(c: Checks, good: seq<Bytes>, s: seq<Bytes>)
  {
    && Sectors(good) && Sectors(s) && |s| == |good|
    && (forall i :: 0 <= i < |s| && s[i] != good[i] ==> c.sector(s[i]) != c.sector(good[i]))
    && (forall i, j :: 0 <= i < j < |s| && i % Calc(|s|) == j % Calc(|s|) ==> OneGood(good, s, i, j))
  }

  predicate OneGood(good: seq<Bytes>, s: seq<Bytes>, i: nat, j: nat)
    requires i < |s| == |good| && j < |s|
  {
    s[i] == good[i] || s[j] == good[j]
  }

  /** Parity and checksums of the good sectors bring every lightly damaged sector back. */
  lemma Recovers(c: Checks, good: seq<Bytes>, s: seq<Bytes>, i: nat)
    requires LightlyDamaged(c, good, s) && i < |s|
    ensures var m := Calc(|s|);
            Mended(c, s, Parities(good, m), Checksums(c, good), i) == good[i]
            && Trusted(c, s, Parities(good, m), Checksums(c, good), i)
  {
    var n, m := |s|, Calc(|s|);
    var x := i % m;
    if s[i] != good[i] {
      forall j | 0 <= j < n && j % m == x && j != i ensures s[j] == good[j] {
        assert i % m == j % m && (OneGood(good, s, i, j) || OneGood(good, s, j, i));
      }
      SameParity(good, s, n, x, m, i);
      ParitySplit(good, n, x, m, i);
      var others := Parity(good, n, x, m, i);
      XorTwice(others, good[i]);
    }
  }

  // ----- the table of checksums -----

  lemma {:induction false} TableConcat(a: seq<Word>, b: seq<Word>)
    ensures TableBytes(a + b) == TableBytes(a) + TableBytes(b)
  {
    if b == [] {
      assert a + b == a;
    } else {
      assert (a + b)[..|a + b| - 1] == a + b[..|b| - 1];
      TableConcat(a, b[..|b| - 1]);
    }
  }

  /** The words that bytes stand for. */
  function Words(b: Bytes, n: nat): (t: seq<Word>)
    requires 2 * n <= |b|
    ensures |t| == n && forall i :: 0 <= i < n ==> t[i] == Word(b[2 * i], b[2 * i + 1])
  {
    seq(n, i requires 0 <= i < n => Word(b[2 * i], b[2 * i + 1]))
  }

  lemma {:induction false} WordsBack(t: seq<Word>)
    ensures Words(TableBytes(t), |t|) == t
  {
    if t != [] {
      var n := |t| - 1;
      WordsBack(t[..n]);
      var b, f := TableBytes(t), TableBytes(t[..n]);
      forall i | 0 <= i < |t| ensures Words(b, |t|)[i] == t[i] {
        if i < n {
          assert Words(f, n)[i] == t[..n][i];
        }
      }
    }
  }

  /** Blocks of 128 entries in a list, with a cursor on the block used last. */
  class CheckTable {
    var blocks: seq<seq<Word>>
    var cur: nat

    ghost predicate Valid()
      reads this
    {
      blocks != [] && cur < |blocks| && forall b :: 0 <= b < |blocks| ==> |blocks[b]| == TABLE_BLOCK
    }

    /** The first entries. */
    ghost predicate Holds(t: seq<Word>)
      reads this
    {
      forall i: nat :: i < |t| ==> EntryIs(blocks, i, t[i])
    }

    constructor ()
      ensures Valid() && Holds([])
    {
      blocks, cur := [seq(TABLE_BLOCK, _ => Word(0, 0))], 0;
    }

    /** Walks the list to a block, starting over if it lies behind, and adds blocks at its end. */
    method MoveTo(seg: nat)
      requires Valid()
      modifies this
      ensures Valid() && cur == seg && old(blocks) <= blocks
    {
      if seg != cur {
        if seg < cur {
          cur := 0;
        }
        while cur != seg
          invariant Valid() && cur <= seg && old(blocks) <= blocks
          decreases seg - cur
        {
          if cur + 1 == |blocks| {
            blocks := blocks + [seq(TABLE_BLOCK, _ => Word(0, 0))];
          }
          cur := cur + 1;
        }
      }
    }

    method SetChk(i: nat, w: Word, ghost t: seq<Word>)
      requires Valid() && Holds(t) && i == |t|
      modifies this
      ensures Valid() && Holds(t + [w])
    {
      var ofs := i % TABLE_BLOCK;
      MoveTo((i - ofs) / TABLE_BLOCK);
      SegmentOf(i);
      ghost var before := blocks;
      blocks := blocks[cur := blocks[cur][ofs := w]];
      forall k: nat | k < |t + [w]| ensures EntryIs(blocks, k, (t + [w])[k]) {
        SegmentOf(k);
        if k < i {
          assert EntryIs(old(blocks), k, t[k]);
          OtherPlace(k, i);
        }
      }
    }

    method GetChk(i: nat, ghost t: seq<Word>) returns (w: Word)
      requires Valid() && Holds(t)
      modifies this
      ensures Valid() && Holds(t) && old(blocks) <= blocks && (i < |t| ==> w == t[i]) && i / TABLE_BLOCK < |blocks|
    {
      var ofs := i % TABLE_BLOCK;
      MoveTo((i - ofs) / TABLE_BLOCK);
      SegmentOf(i);
      forall k: nat | k < |t| ensures EntryIs(blocks, k, t[k]) {
        assert EntryIs(old(blocks), k, t[k]);
      }
      w := blocks[cur][ofs];
    }

    /** The bytes of the first n entries, block by block. */
    method Dump(n: nat, ghost t: seq<Word>) returns (out: Bytes)
      requires Valid() && Holds(t) && |t| == n
      ensures out == TableBytes(t)
    {
      hide TableBytes;
      out := [];
      NoEntries(t);
      var i: nat, b: nat := n, 0;
      while i > 0
        invariant i <= n && (n - i == TABLE_BLOCK * b || i == 0) && out == TableBytes(t[..n - i])
        decreases i
      {
        var j := if TABLE_BLOCK > i then i else TABLE_BLOCK;
        ghost var done := n - i;
        InBlock(blocks, t, b, done, j);
        TableConcat(t[..done], t[done..done + j]);
        assert t[..done] + t[done..done + j] == t[..done + j];
        out := out + TableBytes(blocks[b][..j]);
        i, b := i - j, b + 1;
      }
      assert t[..n] == t;
    }

    /** Fills the first n entries from bytes, block by block. */
    method Load(bytes: Bytes, n: nat)
      requires Valid() && 2 * n <= |bytes| && n / TABLE_BLOCK < |blocks|
      modifies this
      ensures Valid() && Holds(Words(bytes, n))
    {
      var i: nat, b: nat := n, 0;
      while i > 0
        invariant i <= n && (n - i == TABLE_BLOCK * b || i == 0) && Valid() && |blocks| == old(|blocks|)
        invariant Holds(Words(bytes, n - i))
        decreases i
      {
        var j := if TABLE_BLOCK > i then i else TABLE_BLOCK;
        ghost var done, before := n - i, blocks;
        BlockInRange(n, done, b, |blocks|);
        var piece := Words(bytes[2 * (n - i)..], j);
        blocks := blocks[b := piece + blocks[b][j..]];
        ghost var all := Words(bytes, done + j);
        forall k: nat | k < done + j ensures EntryIs(blocks, k, all[k]) {
          SegmentOf(k);
          if k < done {
            assert EntryIs(before, k, Words(bytes, done)[k]);
            EarlierBlock(k, b);
          } else {
            InBlockAt(k, b);
          }
        }
        i, b := i - j, b + 1;
      }
    }
  }

  lemma NoEntries(t: seq<Word>)
    ensures TableBytes(t[..0]) == []
  {
  }

  ghost predicate EntryIs(blocks: seq<seq<Word>>, i: nat, w: Word)
  {
    i / TABLE_BLOCK < |blocks| && i % TABLE_BLOCK < |blocks[i / TABLE_BLOCK]| && blocks[i / TABLE_BLOCK][i % TABLE_BLOCK] == w
  }

  lemma SegmentOf(i: nat)
    ensures (i - i % TABLE_BLOCK) / TABLE_BLOCK == i / TABLE_BLOCK && i % TABLE_BLOCK < TABLE_BLOCK
    ensures i == TABLE_BLOCK * (i / TABLE_BLOCK) + i % TABLE_BLOCK
  {
  }

  lemma OtherPlace(k: nat, i: nat)
    requires k != i
    ensures k / TABLE_BLOCK != i / TABLE_BLOCK || k % TABLE_BLOCK != i % TABLE_BLOCK
  {
  }

  lemma EarlierBlock(k: nat, b: nat)
    requires k < TABLE_BLOCK * b
    ensures k / TABLE_BLOCK < b
  {
  }

  lemma InBlockAt(k: nat, b: nat)
    requires TABLE_BLOCK * b <= k < TABLE_BLOCK * b + TABLE_BLOCK
    ensures k / TABLE_BLOCK == b && k % TABLE_BLOCK == k - TABLE_BLOCK * b
  {
  }

  lemma BlockInRange(n: nat, done: nat, b: nat, count: nat)
    requires done < n && done == TABLE_BLOCK * b && n / TABLE_BLOCK < count
    ensures b < count
  {
  }

  lemma InBlock(blocks: seq<seq<Word>>, t: seq<Word>, b: nat, done: nat, j: nat)
    requires forall i: nat :: i < |t| ==> EntryIs(blocks, i, t[i])
    requires forall c :: 0 <= c < |blocks| ==> |blocks[c]| == TABLE_BLOCK
    requires done == TABLE_BLOCK * b && 0 < j <= TABLE_BLOCK && done + j <= |t|
    ensures b < |blocks| && |blocks[b]| == TABLE_BLOCK && blocks[b][..j] == t[done..done + j]
  {
    InBlockAt(done, b);
    assert EntryIs(blocks, done, t[done]);
    forall k | 0 <= k < j ensures blocks[b][k] == t[done + k] {
      InBlockAt(done + k, b);
      assert EntryIs(blocks, done + k, t[done + k]);
    }
  }

  // ----- protecting -----

  /** The file made a whole number of sectors: the byte at its end is not written and comes out as `gap`. */
  function Padded(data: Bytes, gap: bv8): (f: Bytes)
    ensures |f| == SECTOR * SectorCount(|data|) && f[..|data|] == data
  {
    var f := data + [gap] + seq(SECTOR - 1 - |data| % SECTOR, _ => 0);
    assert f[..|data|] == data;
    f
  }

  /** The exclusive or of a sector into a parity buffer. */
  method XorBlock(dst: array<bv8>, b: Bytes)
    requires dst.Length == |b|
    modifies dst
    ensures dst[..] == Xor(old(dst[..]), b)
  {
    for k := 0 to dst.Length
      invariant forall i :: 0 <= i < k ==> dst[i] == old(dst[i]) ^ b[i]
      invariant forall i :: k <= i < dst.Length ==> dst[i] == old(dst[i])
    {
      dst[k] := dst[k] ^ b[k];
    }
    assert dst[..] == Xor(old(dst[..]), b);
  }

  lemma NextParity(s: seq<Bytes>, i: nat, m: nat)
    requires Sectors(s) && i < |s| && m > 0
    ensures forall x: nat :: x < m ==> Parity(s, i + 1, x, m, -1) == if x == i % m then Xor(Parity(s, i, x, m, -1), s[i]) else Parity(s, i, x, m, -1)
  {
  }

  lemma NoParity(s: seq<Bytes>, m: nat)
    requires Sectors(s) && m > 0
    ensures forall x: nat :: x < m ==> Parity(s, 0, x, m, -1) == Blank()
  {
  }

  method ParityBuffer(b: Bytes) returns (buffer: array<bv8>)
    requires |b| == SECTOR
    ensures fresh(buffer) && buffer[..] == b
  {
    buffer := new bv8[SECTOR](k requires 0 <= k < SECTOR => b[k]);
    assert buffer[..] == b;
  }

  /** Reads all sectors: their parity goes into the buffers, their checksums into the table. */
  method ReadSectors(c: Checks, file: Bytes, n: nat, m: nat, table: CheckTable) returns (parity: seq<Bytes>)
    requires SECTOR * n <= |file| && m > 0 && table.Valid() && table.Holds([])
    modifies table
    ensures parity == Parities(Cut(file, n), m) && table.Valid() && table.Holds(Checksums(c, Cut(file, n)))
  {
    hide Xor, Parity;
    ghost var s := Cut(file, n);
    NoParity(s, m);
    ghost var sums := Checksums(c, s);
    parity := seq(m, _ => Blank());
    assert sums[..0] == [];
    for i := 0 to n
      invariant |parity| == m && Sectors(parity) && forall x: nat :: x < m ==> parity[x] == Parity(s, i, x, m, -1)
      invariant table.Valid() && table.Holds(sums[..i])
    {
      var sector := file[SECTOR * i..SECTOR * i + SECTOR];
      NextParity(s, i, m);
      ResidueSmall(i, m);
      var buffer := ParityBuffer(parity[i % m]);
      XorBlock(buffer, sector);
      parity := parity[i % m := buffer[..]];
      table.SetChk(i, c.sector(sector), sums[..i]);
      assert sums[..i + 1] == sums[..i] + [c.sector(sector)];
    }
    assert sums[..n] == sums;
  }

  lemma ResidueSmall(i: nat, m: nat)
    requires m > 0
    ensures i % m < m
  {
  }

  lemma SameCut(f: Bytes, g: Bytes, n: nat)
    requires SECTOR * n <= |f| && SECTOR * n == |g| && f[..SECTOR * n] == g
    ensures Cut(f, n) == Cut(g, n)
  {
    assert f == g + f[SECTOR * n..];
    forall i | 0 <= i < n ensures Cut(f, n)[i] == Cut(g, n)[i] {
      SliceLeft(g, f[SECTOR * n..], SECTOR * i, SECTOR * i + SECTOR);
    }
  }

  /** Writes the parity sectors and the table behind the padded file. */
  method Protect(c: Checks, data: Bytes, gap: bv8) returns (file: Bytes)
    ensures file == if data == [] then [] else Padded(data, gap) + Records(c, Cut(Padded(data, gap), SectorCount(|data|)))
  {
    hide Records, Parity;
    file := data;
    if |data| == 0 {
      return [];
    }
    var table := new CheckTable();
    var secs := |data| / SECTOR;
    var extra := SECTOR - (|data| - secs * SECTOR);
    file := data + [gap] + seq(extra, _ => 0);
    secs := secs + 1;
    PaddedIs(data, gap, extra);
    var m := Calc(secs);
    var parity := ReadSectors(c, file, secs, m, table);
    ghost var s := Cut(Padded(data, gap), secs);
    SameCut(file, Padded(data, gap), secs);
    file := file[..SECTOR * secs];
    for i := 0 to m
      invariant file == Padded(data, gap) + Flat(parity[..i])
    {
      assert parity[..i + 1][..i] == parity[..i];
      file := file + parity[i];
    }
    assert parity[..m] == parity;
    var dump := table.Dump(secs, Checksums(c, s));
    file := file + dump;
    file := file + WordBytes(c.table(dump));
    RecordsAre(c, s, Padded(data, gap));
  }

  lemma PaddedIs(data: Bytes, gap: bv8, extra: nat)
    requires extra == SECTOR - |data| % SECTOR
    ensures var f, n := data + [gap] + seq(extra, _ => 0), SectorCount(|data|);
            n == |data| / SECTOR + 1 && |f| == SECTOR * n + 1 && f[..SECTOR * n] == Padded(data, gap)
  {
  }

  lemma RecordsAre(c: Checks, s: seq<Bytes>, file: Bytes)
    requires Sectors(s)
    ensures var t := TableBytes(Checksums(c, s));
            file + Flat(Parities(s, Calc(|s|))) + t + WordBytes(c.table(t)) == file + Records(c, s)
  {
  }

  // ----- repairing -----

  datatype Repaired = Repaired(ok: bool, data: Bytes)

  function Size(len: nat): nat
  {
    var n := SectorCount(len);
    SECTOR * (n + Calc(n)) + 2 * n + 2
  }

  function Mendeds(c: Checks, s: seq<Bytes>, parity: seq<Bytes>, t: seq<Word>, k: nat): (r: seq<Bytes>)
    requires Sectors(s) && Sectors(parity) && |parity| == Calc(|s|) && |t| == |s| && k <= |s|
    ensures |r| == k && Sectors(r) && forall i :: 0 <= i < k ==> r[i] == Mended(c, s, parity, t, i)
  {
    seq(k, i requires 0 <= i < k => Mended(c, s, parity, t, i))
  }

  /** What the repair makes of a file whose data has a known length. */
  ghost predicate Repairs(c: Checks, file: Bytes, len: nat, r: Repaired)
    requires Size(len) <= |file|
  {
    var n := SectorCount(len);
    var m := Calc(n);
    var s := Cut(file, n);
    var parity := Cut(file[SECTOR * n..], m);
    var at := SECTOR * (n + m);
    var table := file[at..at + 2 * n];
    if Word(file[at + 2 * n], file[at + 2 * n + 1]) != c.table(table) then r == Repaired(false, file[..len])
    else
      var t := Words(table, n);
      && r.data == Flat(Mendeds(c, s, parity, t, n))[..len]
      && (r.ok <==> forall i :: 0 <= i < n ==> Trusted(c, s, parity, t, i))
  }

  lemma FlatNext(s: seq<Bytes>, i: nat)
    requires Sectors(s) && i < |s|
    ensures Flat(s[..i + 1]) == Flat(s[..i]) + s[i]
  {
    assert s[..i + 1][..i] == s[..i];
  }

  /** Collects the other sectors of a class and its parity sector. */
  method Rebuild(file: Bytes, n: nat, m: nat, i: nat) returns (r: Bytes)
    requires m == Calc(n) && i < n && SECTOR * (n + m) <= |file|
    ensures r == Rebuilt(Cut(file, n), Cut(file[SECTOR * n..], m), i)
  {
    hide Xor, Calc, Parity;
    ghost var s, parity := Cut(file, n), Cut(file[SECTOR * n..], m);
    var x := i % m;
    ResidueSmall(i, m);
    var tbuf := new bv8[SECTOR](_ => 0);
    assert tbuf[..] == Blank();
    var j: nat := x;
    FirstOfClass(s, x, m, i);
    while j < n
      invariant j % m == x && tbuf[..] == Parity(s, if j < n then j else n, x, m, i)
      decreases n - j
    {
      if j != i {
        XorBlock(tbuf, file[SECTOR * j..SECTOR * j + SECTOR]);
      }
      NextOfClass(j, m);
      ClassStep(s, j, x, m, i);
      j := j + m;
    }
    assert file[SECTOR * n..][SECTOR * x..SECTOR * x + SECTOR] == file[SECTOR * (n + x)..SECTOR * (n + x) + SECTOR];
    XorBlock(tbuf, file[SECTOR * (n + x)..SECTOR * (n + x) + SECTOR]);
    r := tbuf[..];
  }

  lemma {:induction false} FirstOfClass(s: seq<Bytes>, x: nat, m: nat, i: int)
    requires Sectors(s) && x < m
    ensures x % m == x
    ensures Parity(s, if x < |s| then x else |s|, x, m, i) == Blank()
  {
    DivModUnique(0, m, x);
    NoneBefore(s, if x < |s| then x else |s|, x, m, i);
  }

  lemma {:induction false} NoneBefore(s: seq<Bytes>, n: nat, x: nat, m: nat, i: int)
    requires Sectors(s) && n <= x < m && n <= |s|
    ensures Parity(s, n, x, m, i) == Blank()
  {
    if n > 0 {
      DivModUnique(0, m, n - 1);
      NoneBefore(s, n - 1, x, m, i);
    }
  }

  lemma ClassStep(s: seq<Bytes>, j: nat, x: nat, m: nat, i: int)
    requires Sectors(s) && j < |s| && m > 0 && j % m == x
    ensures Parity(s, if j + m < |s| then j + m else |s|, x, m, i)
            == if j != i then Xor(Parity(s, j, x, m, i), s[j]) else Parity(s, j, x, m, i)
  {
    hide Xor;
    ParityGap(s, j, if j + m < |s| then j + m else |s|, x, m, i);
  }

  /** One sector of the repaired file. */
  method MendSector(c: Checks, file: Bytes, n: nat, m: nat, i: nat, cmp: Word) returns (sector: Bytes, good: bool)
    requires m == Calc(n) && i < n && SECTOR * (n + m) <= |file|
    ensures var s, parity := Cut(file, n), Cut(file[SECTOR * n..], m);
            var other := Rebuilt(s, parity, i);
            && sector == (if c.sector(s[i]) == cmp then s[i] else if c.sector(other) == cmp then other else s[i])
            && (good <==> c.sector(s[i]) == cmp || c.sector(other) == cmp)
  {
    hide Rebuilt, Calc;
    sector, good := file[SECTOR * i..SECTOR * i + SECTOR], true;
    if c.sector(sector) != cmp {
      var other := Rebuild(file, n, m, i);
      if cmp == c.sector(other) {
        sector := other;
      } else {
        good := false;
      }
    }
  }

  /** Reads the table: its entries, and whether its own checksum is right. */
  method ReadTable(c: Checks, file: Bytes, at: nat, n: nat) returns (table: CheckTable, spec: bool)
    requires at + 2 * n + 2 <= |file|
    ensures fresh(table) && table.Valid() && table.Holds(Words(file[at..at + 2 * n], n))
    ensures spec <==> Word(file[at + 2 * n], file[at + 2 * n + 1]) != c.table(file[at..at + 2 * n])
  {
    hide TableBytes;
    table := new CheckTable();
    var _ := table.GetChk(n, []);
    table.Load(file[at..at + 2 * n], n);
    ghost var t := Words(file[at..at + 2 * n], n);
    var dump := table.Dump(n, t);
    BytesOfWords(file[at..at + 2 * n], n);
    spec := Word(file[at + 2 * n], file[at + 2 * n + 1]) != c.table(dump);
  }

  /** Copies or mends all sectors. */
  method MendAll(c: Checks, file: Bytes, n: nat, m: nat, table: CheckTable, spec: bool, ghost t: seq<Word>)
    returns (ok: bool, out: Bytes)
    requires m == Calc(n) && SECTOR * (n + m) <= |file| && table.Valid() && table.Holds(t) && |t| == n
    modifies table
    ensures var s, parity := Cut(file, n), Cut(file[SECTOR * n..], m);
            if spec then !ok && out == Flat(s)
            else out == Flat(Mendeds(c, s, parity, t, n)) && (ok <==> forall i :: 0 <= i < n ==> Trusted(c, s, parity, t, i))
  {
    hide Parity, Rebuilt, Flat, Calc, CheckTable.Valid, CheckTable.Holds, Xor, Blank;
    ghost var s, parity := Cut(file, n), Cut(file[SECTOR * n..], m);
    ghost var mended := Mendeds(c, s, parity, t, n);
    out, ok := [], !spec;
    StartsEmpty(mended, s);
    for i := 0 to n
      invariant table.Valid() && table.Holds(t)
      invariant if spec then !ok && out == Flat(s[..i])
                else out == Flat(mended[..i]) && (ok <==> forall k :: 0 <= k < i ==> Trusted(c, s, parity, t, k))
    {
      var cmp := table.GetChk(i, t);
      if spec {
        FlatNext(s, i);
        out := out + file[SECTOR * i..SECTOR * i + SECTOR];
      } else {
        var sector, good := MendSector(c, file, n, m, i, cmp);
        assert good <==> Trusted(c, s, parity, t, i);
        FlatNext(mended, i);
        out := out + sector;
        ok := ok && good;
      }
    }
    assert mended[..n] == mended && s[..n] == s;
  }

  /**
    * Checks and mends every sector of a file; the mended file is cut back to the length of its data. Where the file is
    * too short for its records the reads leave whatever the buffers held before.
    */
  method Repair(c: Checks, file: Bytes, len: nat) returns (r: Repaired)
    ensures |r.data| == len
    ensures Size(len) <= |file| ==> Repairs(c, file, len, r)
  {
    if |file| < Size(len) {
      var stale: Bytes, ok: bool := *, *;
      r := Repaired(ok, if |stale| == len then stale else seq(len, _ => 0));
      return;
    }
    r := RepairFull(c, file, len);
  }

  method RepairFull(c: Checks, file: Bytes, len: nat) returns (r: Repaired)
    requires Size(len) <= |file|
    ensures Repairs(c, file, len, r) && |r.data| == len
  {
    hide Parity, Mended, Trusted, Rebuilt, Flat, Calc;
    var n := SectorCount(len);
    var m := Calc(n);
    var at := SECTOR * (n + m);
    var table, spec := ReadTable(c, file, at, n);
    var ok, out := MendAll(c, file, n, m, table, spec, Words(file[at..at + 2 * n], n));
    FlatCut(file, n);
    assert file[..SECTOR * n][..len] == file[..len];
    r := Repaired(ok, out[..len]);
  }

  lemma StartsEmpty(a: seq<Bytes>, b: seq<Bytes>)
    requires Sectors(a) && Sectors(b)
    ensures Flat(a[..0]) == [] && Flat(b[..0]) == []
  {
  }

  lemma {:induction false} BytesOfWords(b: Bytes, n: nat)
    requires |b| == 2 * n
    ensures TableBytes(Words(b, n)) == b
  {
    if n > 0 {
      var t := Words(b, n);
      assert t[..n - 1] == Words(b[..2 * n - 2], n - 1);
      BytesOfWords(b[..2 * n - 2], n - 1);
      assert b == b[..2 * n - 2] + [b[2 * n - 2], b[2 * n - 1]];
    }
  }

  /**
    * Every file whose records are intact and whose sectors are lightly damaged is repaired completely, with success
    * reported, whatever follows the records.
    */
  lemma RepairRestores(c: Checks, data: Bytes, gap: bv8, file: Bytes, rest: Bytes, r: Repaired)
    requires Size(|data|) <= |file|
    requires var n := SectorCount(|data|);
             var good := Cut(Padded(data, gap), n);
             file[SECTOR * n..] == Records(c, good) + rest && LightlyDamaged(c, good, Cut(file, n))
    requires Repairs(c, file, |data|, r)
    ensures r == Repaired(true, data)
  {
    hide Padded, Parity, Rebuilt, Mended, Flat, LightlyDamaged, TableBytes, Xor;
    var n := SectorCount(|data|);
    var m, good, s := Calc(n), Cut(Padded(data, gap), n), Cut(file, n);
    RecordsRead(c, good, file, n, rest);
    var t, parity := Checksums(c, good), Parities(good, m);
    forall i | 0 <= i < n ensures Mended(c, s, parity, t, i) == good[i] && Trusted(c, s, parity, t, i) {
      Recovers(c, good, s, i);
    }
    assert Mendeds(c, s, parity, t, n) == good;
    FlatCut(Padded(data, gap), n);
    PaddedStart(data, gap);
  }

  lemma PaddedStart(data: Bytes, gap: bv8)
    ensures var n := SectorCount(|data|); Padded(data, gap)[..SECTOR * n] == Padded(data, gap) && Padded(data, gap)[..|data|] == data
  {
  }

  /** The records are found where the repair looks for them. */
  lemma RecordsRead(c: Checks, good: seq<Bytes>, file: Bytes, n: nat, rest: Bytes)
    requires Sectors(good) && |good| == n && SECTOR * n <= |file| && file[SECTOR * n..] == Records(c, good) + rest
    ensures var m := Calc(n);
            var at := SECTOR * (n + m);
            && at + 2 * n + 2 <= |file| && Cut(file[SECTOR * n..], m) == Parities(good, m)
            && file[at..at + 2 * n] == TableBytes(Checksums(c, good))
            && Word(file[at + 2 * n], file[at + 2 * n + 1]) == c.table(file[at..at + 2 * n])
            && Words(file[at..at + 2 * n], n) == Checksums(c, good)
  {
    hide Parity, TableBytes, Xor, Flat;
    var m := Calc(n);
    var p, t := Parities(good, m), TableBytes(Checksums(c, good));
    var after, at := file[SECTOR * n..], SECTOR * (n + m);
    WordsBack(Checksums(c, good));
    RecordsAre(c, good, []);
    assert [] + Flat(p) == Flat(p) && [] + Records(c, good) == Records(c, good);
    hide Records, Checksums, Calc, Parities, Cut;
    InParts(after, Flat(p), t, WordBytes(c.table(t)), rest);
    CutFlat(after, p);
    DropTwice(file, SECTOR * n, SECTOR * m, 2 * n);
  }

  lemma CutFlat(all: Bytes, p: seq<Bytes>)
    requires Sectors(p) && SECTOR * |p| <= |all| && all[..SECTOR * |p|] == Flat(p)
    ensures Cut(all, |p|) == p
  {
    hide Flat;
    var rest := all[SECTOR * |p|..];
    assert all == Flat(p) + rest;
    forall x | 0 <= x < |p| ensures Cut(all, |p|)[x] == p[x] {
      FlatAt(p, x);
      SliceLeft(Flat(p), rest, SECTOR * x, SECTOR * x + SECTOR);
    }
  }

  lemma InParts(all: Bytes, a: Bytes, b: Bytes, w: Bytes, rest: Bytes)
    requires all == a + b + w + rest && |w| == 2
    ensures |all| >= |a| + |b| + 2 && all[..|a|] == a && all[|a|..|a| + |b|] == b
    ensures all[|a| + |b|] == w[0] && all[|a| + |b| + 1] == w[1]
  {
  }

  lemma DropTwice(f: Bytes, a: nat, b: nat, n: nat)
    requires a + b + n <= |f|
    ensures f[a..][b..b + n] == f[a + b..a + b + n]
  {
    var x, y := f[a..][b..b + n], f[a + b..a + b + n];
    forall k | 0 <= k < n ensures x[k] == y[k] {
      assert x[k] == f[a..][b + k] == f[a + (b + k)];
    }
    assert x == y;
  }

  /** Protecting a file, damaging it lightly in its sectors, and repairing it. */
  lemma ProtectThenRepair(c: Checks, data: Bytes, gap: bv8, file: Bytes, damaged: Bytes, r: Repaired)
    requires data != [] && file == Padded(data, gap) + Records(c, Cut(Padded(data, gap), SectorCount(|data|)))
    requires var n := SectorCount(|data|);
             |damaged| == |file| && Size(|data|) <= |damaged| && damaged[SECTOR * n..] == file[SECTOR * n..]
             && LightlyDamaged(c, Cut(Padded(data, gap), n), Cut(damaged, n))
    requires Repairs(c, damaged, |data|, r)
    ensures r == Repaired(true, data)
  {
    hide Padded, Records, Repairs, LightlyDamaged, Flat;
    var n := SectorCount(|data|);
    var records := Records(c, Cut(Padded(data, gap), n));
    PaddedLength(data, gap);
    assert damaged[SECTOR * n..] == records + [];
    RepairRestores(c, data, gap, damaged, [], r);
  }

  lemma PaddedLength(data: Bytes, gap: bv8)
    ensures |Padded(data, gap)| == SECTOR * SectorCount(|data|)
  {
  }
}
