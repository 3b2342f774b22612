/** The file cache of the 1992 program: deferred writes and read-ahead in 16 KiB pages behave like a plain file. */
module UltraCache {
  import opened BitStrings
  import opened Options

  const PAGE := 16384

  // ----- a plain file -----

  function Zeros(n: nat): (z: seq<byte>)
    ensures |z| == n
  {
    seq(n, _ => 0)
  }

  /** Overwrites from a position on; a gap before it is filled, and writing nothing changes nothing. */
  function Put(f: seq<byte>, at: nat, d: seq<byte>): (r: seq<byte>)
  {
    if d == [] then f
    else (if at <= |f| then f[..at] else f + Zeros(at - |f|)) + d + (if at + |d| < |f| then f[at + |d|..] else [])
  }

  /** Cutting the file off at a position, or filling it up to there. */
  function SetLength(f: seq<byte>, n: nat): (r: seq<byte>)
    ensures |r| == n && (n == |f| ==> r == f)
  {
    if n <= |f| then f[..n] else f + Zeros(n - |f|)
  }

  /** Overwriting what follows a front. */
  lemma PutAfter(front: seq<byte>, rest: seq<byte>, d: seq<byte>)
    requires d != []
    ensures Put(front + rest, |front|, d) == front + d + (if |d| < |rest| then rest[|d|..] else [])
  {
    var f := front + rest;
    assert f[..|front|] == front;
    if |d| < |rest| {
      assert f[|front| + |d|..] == rest[|d|..];
    }
  }

  lemma PutPut(f: seq<byte>, at: nat, a: seq<byte>, b: seq<byte>)
    ensures Put(Put(f, at, a), at + |a|, b) == Put(f, at, a + b)
  {
    if a == [] {
      assert a + b == b;
    } else if b == [] {
      assert a + b == a;
    } else {
      var front := if at <= |f| then f[..at] else f + Zeros(at - |f|);
      var tail := if at + |a| < |f| then f[at + |a|..] else [];
      assert Put(f, at, a) == front + a + tail;
      hide Put;
      PutAfter(front + a, tail, b);
      EndOf(f, front, at, a, b);
    }
  }

  lemma EndOf(f: seq<byte>, front: seq<byte>, at: nat, a: seq<byte>, b: seq<byte>)
    requires a != [] && b != [] && front == if at <= |f| then f[..at] else f + Zeros(at - |f|)
    ensures var tail := if at + |a| < |f| then f[at + |a|..] else [];
            front + a + b + (if |b| < |tail| then tail[|b|..] else []) == Put(f, at, a + b) && |front| == at
  {
    var end := if at + |a + b| < |f| then f[at + |a + b|..] else [];
    var tail := if at + |a| < |f| then f[at + |a|..] else [];
    assert Put(f, at, a + b) == front + (a + b) + end;
    hide *;
    assert front + a + b == front + (a + b);
    if at + |a| + |b| < |f| {
      assert tail[|b|..] == f[at + |a| + |b|..] == end;
    }
  }

  lemma NothingPut(f: seq<byte>, at: nat)
    ensures Put(f, at, []) == f
  {
  }

  datatype Plain = Plain(data: seq<byte>, pos: nat)

  /** What a read of up to n bytes returns. */
  function Window(data: seq<byte>, pos: nat, n: nat): (r: seq<byte>)
    ensures |r| <= n
  {
    if pos >= |data| then [] else if n < |data| - pos then data[pos..pos + n] else data[pos..]
  }

  // ----- pages -----

  ghost predicate Pages(pages: seq<seq<byte>>) { forall i :: 0 <= i < |pages| ==> |pages[i]| == PAGE }

  function Flat(pages: seq<seq<byte>>): seq<byte>
  {
    if pages == [] then [] else Flat(pages[..|pages| - 1]) + pages[|pages| - 1]
  }

  lemma {:induction false} FlatLength(pages: seq<seq<byte>>)
    requires Pages(pages)
    ensures |Flat(pages)| == PAGE * |pages|
  {
    if pages != [] {
      FlatLength(pages[..|pages| - 1]);
    }
  }

  /** A piece of one page is a piece of the whole. */
  lemma {:induction false} FlatPiece(pages: seq<seq<byte>>, i: nat, a: nat, b: nat)
    requires Pages(pages) && i < |pages| && a <= b <= PAGE
    ensures |Flat(pages)| == PAGE * |pages| && Flat(pages)[PAGE * i + a..PAGE * i + b] == pages[i][a..b]
  {
    FlatLength(pages);
    var n := |pages| - 1;
    var front := pages[..n];
    FlatLength(front);
    if i < n {
      FlatPiece(front, i, a, b);
      assert front[i] == pages[i];
      SliceLeft(Flat(front), pages[n], PAGE * i + a, PAGE * i + b);
    } else {
      SliceRight(Flat(front), pages[n], a, b);
    }
  }

  lemma SliceLeft(x: seq<byte>, y: seq<byte>, a: nat, b: nat)
    requires a <= b <= |x|
    ensures (x + y)[a..b] == x[a..b]
  {
  }

  lemma SliceRight(x: seq<byte>, y: seq<byte>, a: nat, b: nat)
    requires a <= b <= |y|
    ensures (x + y)[|x| + a..|x| + b] == y[a..b]
  {
    assert (x + y)[|x|..] == y;
    SliceOfSlice(x + y, |x|, |x + y|, a, b - a);
  }

  function Patched(page: seq<byte>, ofs: nat, d: seq<byte>): (p: seq<byte>)
    requires ofs + |d| <= |page|
    ensures |p| == |page|
  {
    page[..ofs] + d + page[ofs + |d|..]
  }

  /** Writing into the last page. */
  lemma FlatPatched(pages: seq<seq<byte>>, ofs: nat, d: seq<byte>)
    requires Pages(pages) && pages != [] && ofs + |d| <= PAGE
    ensures var i := |pages| - 1;
            var pages' := pages[i := Patched(pages[i], ofs, d)];
            && Pages(pages') && |Flat(pages)| == |Flat(pages')| == PAGE * |pages|
            && Flat(pages')[..PAGE * i + ofs + |d|] == Flat(pages)[..PAGE * i + ofs] + d
  {
    var i := |pages| - 1;
    var pages' := pages[i := Patched(pages[i], ofs, d)];
    assert pages'[..i] == pages[..i];
    FlatLength(pages[..i]);
    FlatLength(pages);
    FlatLength(pages');
    assert Flat(pages') == Flat(pages[..i]) + (pages[i][..ofs] + d + pages[i][ofs + |d|..]);
  }

  lemma FlatMore(pages: seq<seq<byte>>, page: seq<byte>)
    requires Pages(pages) && |page| == PAGE
    ensures Pages(pages + [page]) && Flat(pages + [page]) == Flat(pages) + page && |Flat(pages)| == PAGE * |pages|
  {
    assert (pages + [page])[..|pages|] == pages;
    FlatLength(pages);
  }

  /** How many pages hold n bytes. */
  function PageCount(n: nat): nat { (n + (PAGE - 1)) / PAGE }

  lemma PageCounts(n: nat, pos: nat, ofs: nat)
    requires n == PAGE * pos + ofs && ofs < PAGE
    ensures PageCount(n) == if ofs == 0 then pos else pos + 1
  {
  }

  // ----- an open file -----

  datatype Mode = NONE | WRIT | READ

  class CachedFile {
    // the file on disk, with the position and length the program remembers
    var disk: seq<byte>
    var dwPos: nat
    var dwLen: Option<nat>
    // the cache
    var pages: seq<seq<byte>>
    var cmode: Mode
    var offset: nat
    var size: nat
    var vfptr: nat

    /** The length remembered is the length. */
    predicate LenRight()
      reads this`dwLen, this`disk
    {
      dwLen.Some? ==> dwLen.value == |disk|
    }

    /** The length remembered is never too small. */
    ghost predicate LenEnough()
      reads this`dwLen, this`disk
    {
      dwLen.Some? ==> dwLen.value >= |disk|
    }

    function Cached(): seq<byte>
      reads this
    {
      if size <= |Flat(pages)| then Flat(pages)[..size] else []
    }

    ghost predicate Stocked()
      reads this
    {
      Pages(pages) && (if cmode == READ then |pages| >= PageCount(size) else |pages| == if cmode == WRIT then PageCount(size) else 0)
    }

    /** The cache is what it says it is, whatever length is remembered. */
    ghost predicate Sound()
      reads this
    {
      && Stocked()
      && (cmode == READ && size > 0 ==> offset + size <= |disk| && Cached() == disk[offset..offset + size])
      && (cmode == WRIT ==> offset + size == vfptr)
    }

    ghost predicate Valid()
      reads this
    {
      LenEnough() && Sound()
    }

    /** The plain file the cached one stands for. */
    ghost function Value(): Plain
      reads this
    {
      Plain(if cmode == WRIT then Put(disk, offset, Cached()) else disk, if cmode == NONE then dwPos else vfptr)
    }

    constructor (disk: seq<byte>, created: bool)
      requires created ==> disk == []
      ensures Valid() && LenRight() && cmode == NONE && Value() == Plain(disk, 0)
    {
      this.disk, dwPos, dwLen := disk, 0, if created then Some(0) else None;
      pages, cmode, offset, size, vfptr := [], NONE, 0, 0, 0;
    }

    // ----- internal reads and writes -----

    /** A short read is taken for the end of the file, which is right unless it starts behind the end. */
    method InternalRead(n: nat) returns (out: seq<byte>)
      modifies this`dwPos, this`dwLen
      ensures out == Window(disk, old(dwPos), n) && dwPos == old(dwPos) + |out|
      ensures old(LenEnough()) ==> LenEnough()
      ensures old(LenRight()) ==> (LenRight() <==> n == 0 || old(dwPos) <= |disk|)
      ensures |out| != n ==> dwLen == Some(dwPos)
      ensures n > 0 && old(dwPos) > |disk| ==> dwLen == Some(old(dwPos))
    {
      out := Window(disk, dwPos, n);
      dwPos := dwPos + |out|;
      if |out| != n {
        dwLen := Some(dwPos);
      }
    }

    /** The operating system may take a write of no bytes for setting the length. */
    method InternalWrite(d: seq<byte>)
      modifies this`disk, this`dwPos, this`dwLen
      ensures d != [] ==> disk == Put(old(disk), old(dwPos), d)
      ensures d == [] ==> disk == old(disk) || disk == SetLength(old(disk), old(dwPos))
      ensures dwPos == old(dwPos) + |d| && (old(LenEnough()) ==> LenEnough())
      ensures old(LenRight()) && (d != [] || old(dwPos) == |old(disk)|) ==> LenRight()
    {
      if d != [] {
        disk := Put(disk, dwPos, d);
      } else {
        var sets: bool := *;
        if sets {
          disk := SetLength(disk, dwPos);
        }
      }
      dwPos := dwPos + |d|;
      if dwLen.Some? && dwLen.value < dwPos {
        dwLen := Some(dwPos);
      }
    }

    method InternalSeek(pos: nat)
      modifies this`dwPos
      ensures dwPos == pos
    {
      if dwPos != pos {
        dwPos := pos;
      }
    }

    method InternalLen() returns (n: nat)
      modifies this`dwLen
      ensures n == (if old(dwLen).Some? then old(dwLen).value else |disk|) && dwLen == Some(n)
      ensures (LenRight() <==> old(LenRight())) && (n == |disk| <==> LenRight()) && (old(LenEnough()) ==> LenEnough())
    {
      if dwLen.None? {
        dwLen := Some(|disk|);
      }
      n := dwLen.value;
    }

    // ----- pages -----

    /** Copies bytes into the last page and on into new ones. */
    method Fill(pos0: nat, ofs0: nat, data: seq<byte>) returns (pos: nat, ofs: nat)
      requires Pages(pages) && |pages| == pos0 + 1 && ofs0 < PAGE
      modifies this`pages
      ensures Pages(pages) && |pages| == pos + 1 && ofs < PAGE && PAGE * pos + ofs == PAGE * pos0 + ofs0 + |data|
      ensures |Flat(pages)| == PAGE * |pages| && |old(Flat(pages))| == PAGE * old(|pages|)
      ensures Flat(pages)[..PAGE * pos + ofs] == old(Flat(pages))[..PAGE * pos0 + ofs0] + data
    {
      hide Flat, Pages, Patched, Zeros;
      pos, ofs := pos0, ofs0;
      var rest := data;
      ghost var done: seq<byte> := [];
      FlatLength(pages);
      while rest != []
        invariant Pages(pages) && |pages| == pos + 1 && ofs < PAGE && PAGE * pos + ofs == PAGE * pos0 + ofs0 + |done|
        invariant |Flat(pages)| == PAGE * |pages| && done + rest == data
        invariant Flat(pages)[..PAGE * pos + ofs] == old(Flat(pages))[..PAGE * pos0 + ofs0] + done
        decreases |rest|
      {
        var trn := if PAGE - ofs < |rest| then PAGE - ofs else |rest|;
        FlatPatched(pages, ofs, rest[..trn]);
        PageLength(pages, pos);
        Shift(old(Flat(pages))[..PAGE * pos0 + ofs0], done, rest, trn);
        pages := pages[pos := Patched(pages[pos], ofs, rest[..trn])];
        done := done + rest[..trn];
        rest := rest[trn..];
        ofs := ofs + trn;
        if ofs == PAGE {
          FlatMore(pages, Zeros(PAGE));
          FlatLength(pages + [Zeros(PAGE)]);
          PrefixKept(Flat(pages), Zeros(PAGE));
          pages := pages + [Zeros(PAGE)];
          pos, ofs := pos + 1, 0;
        }
      }
    }

    /** Copies bytes out of the pages. */
    method FromPages(pos0: nat, ofs0: nat, n: nat) returns (out: seq<byte>)
      requires Pages(pages) && ofs0 < PAGE && PAGE * pos0 + ofs0 + n <= |Flat(pages)|
      ensures out == Flat(pages)[PAGE * pos0 + ofs0..PAGE * pos0 + ofs0 + n]
    {
      hide Flat, Pages;
      FlatLength(pages);
      out := [];
      var pos: nat, ofs: nat, left: nat := pos0, ofs0, n;
      ghost var start := PAGE * pos0 + ofs0;
      while left > 0
        invariant ofs < PAGE && left <= n && PAGE * pos + ofs + left == start + n
        invariant out == Flat(pages)[start..start + (n - left)]
        decreases left
      {
        var trn := if PAGE - ofs < left then PAGE - ofs else left;
        FlatPiece(pages, pos, ofs, ofs + trn);
        PageLength(pages, pos);
        NextPiece(Flat(pages), start, start + (n - left), trn);
        out := out + pages[pos][ofs..ofs + trn];
        left, ofs := left - trn, ofs + trn;
        if ofs == PAGE {
          pos, ofs := pos + 1, 0;
        }
      }
    }

    // ----- flushing -----

    /** Writes the deferred bytes through a transfer buffer. */
    method WriteBack(buffer: nat)
      requires Valid() && cmode == WRIT && buffer > 0 && size > 0
      modifies this`disk, this`dwPos, this`dwLen
      ensures LenEnough() && (old(LenRight()) ==> LenRight())
      ensures disk == Put(old(disk), offset, Cached()) && dwPos == offset + size
    {
      hide Flat, Pages, Put, PageCount, LenRight, LenEnough;
      InternalSeek(offset);
      NothingPut(disk, offset);
      FlatLength(pages);
      var pos: nat, loff: nat, siz: nat := 0, 0, size;
      var dat: seq<byte> := [];
      ghost var written: seq<byte> := [];
      EnoughPages(size, |pages|);
      while siz > 0
        invariant siz <= size && loff < PAGE && PAGE * pos + loff + siz == size && |dat| < buffer
        invariant LenEnough() && (old(LenRight()) ==> LenRight()) && disk == Put(old(disk), offset, written) && dwPos == offset + |written|
        invariant written + dat == Flat(pages)[..size - siz]
        decreases siz
      {
        var trans := if buffer - |dat| < siz then buffer - |dat| else siz;
        trans := if PAGE - loff < trans then PAGE - loff else trans;
        MorePieces(pages, pos, loff, trans, written, dat);
        dat := dat + pages[pos][loff..loff + trans];
        siz, loff := siz - trans, loff + trans;
        if loff == PAGE {
          pos, loff := pos + 1, 0;
        }
        if |dat| == buffer {
          PutPut(old(disk), offset, written, dat);
          InternalWrite(dat);
          written, dat := written + dat, [];
        }
      }
      assert written + dat == Cached() && (dat == [] ==> written + dat == written);
      if dat != [] {
        PutPut(old(disk), offset, written, dat);
        InternalWrite(dat);
      }
    }

    /** Secures deferred bytes and drops the cached ones. */
    method Flush()
      requires Valid()
      modifies this
      ensures Valid() && (old(LenRight()) ==> LenRight()) && cmode == old(cmode) && vfptr == old(vfptr)
      ensures disk == old(Value()).data
      ensures if cmode == NONE then Value() == old(Value()) && pages == old(pages) else size == 0 && pages == [] && offset == vfptr
      ensures cmode != WRIT ==> dwPos == old(dwPos)
      ensures old(cmode) != WRIT || old(size) == 0 ==> dwLen == old(dwLen)
    {
      if cmode == WRIT {
        if size > 0 {
          var buffer: nat :| 0 < buffer;
          WriteBack(buffer);
        }
      }
      if cmode != NONE {
        pages, size, offset := [], 0, vfptr;
      }
    }

    method UnCache()
      requires Valid()
      modifies this
      ensures Valid() && (old(LenRight()) ==> LenRight()) && cmode == NONE && Value() == old(Value()) && disk == Value().data
      ensures old(cmode) != WRIT || old(size) == 0 ==> dwLen == old(dwLen)
    {
      if cmode != NONE {
        Flush();
        cmode := NONE;
        InternalSeek(vfptr);
      }
    }

    // ----- changing the mode -----

    method CacheR()
      requires Valid()
      modifies this
      ensures Valid() && (old(LenRight()) ==> LenRight()) && cmode == READ && Value() == old(Value())
      ensures old(cmode) != WRIT || old(size) == 0 ==> dwLen == old(dwLen) && disk == old(disk)
    {
      if cmode == READ {
        return;
      }
      UnCache();
      pages, size, cmode := [], 0, READ;
      vfptr := dwPos;
      offset := vfptr;
    }

    method CacheW()
      requires Valid()
      modifies this
      ensures Valid() && (old(LenRight()) ==> LenRight()) && cmode == WRIT && Value() == old(Value())
      ensures old(cmode) != WRIT || old(size) == 0 ==> dwLen == old(dwLen) && disk == old(disk)
      ensures old(cmode) != WRIT ==> size == 0
    {
      if cmode == WRIT {
        return;
      }
      UnCache();
      pages, size, cmode := [], 0, WRIT;
      vfptr := dwPos;
      offset := vfptr;
    }

    /** Read caching that takes in the whole file if there is room for it. */
    method CacheRT()
      requires Valid() && LenRight()
      modifies this
      ensures Valid() && LenRight() && cmode == READ && Value() == old(Value())
    {
      hide Flat, Put, PageCount, Pages;
      if cmode == READ {
        var whole := InternalLen();
        if size == whole {
          return;
        }
      }
      UnCache();
      CacheR();
      var len := InternalLen();
      var core: nat := *;
      if 1 + len / PAGE <= core && len > 0 {
        var buffer: nat :| 0 < buffer;
        LoadAll(len, buffer);
      }
    }

    /** Reads the whole file into pages. */
    method LoadAll(len: nat, buffer: nat)
      requires LenRight() && cmode == READ && len == |disk| > 0 && buffer > 0
      modifies this
      ensures Valid() && LenRight() && cmode == READ && disk == old(disk) && vfptr == old(vfptr)
    {
      hide Flat, PageCount, Zeros, Patched, Put, Window, SetLength;
      InternalSeek(0);
      var todo: nat, pos: nat, ofs: nat := len, 0, 0;
      pages, offset, size := [Zeros(PAGE)], 0, len;
      OnePage();
      while todo > 0
        invariant LenRight() && cmode == READ && disk == old(disk) && vfptr == old(vfptr) && offset == 0 && size == len
        invariant todo <= len && dwPos == len - todo && Pages(pages) && |pages| == pos + 1 && ofs < PAGE
        invariant PAGE * pos + ofs == len - todo && |Flat(pages)| == PAGE * |pages|
        invariant Flat(pages)[..PAGE * pos + ofs] == disk[..len - todo]
        decreases todo
      {
        var red := if buffer < todo then buffer else todo;
        var dat := InternalRead(red);
        NextRead(disk, len - todo, red);
        todo := todo - red;
        pos, ofs := Fill(pos, ofs, dat);
      }
      PageCounts(len, pos, ofs);
      if ofs == 0 {
        FlatDrop(pages);
        pages := pages[..pos];
      }
      assert disk[..len] == disk[0..len];
    }

    // ----- reading and writing -----

    /** Whether a piece lies in the cached part. */
    predicate Fits(n: nat)
      reads this
    {
      offset <= vfptr && vfptr + n <= offset + size
    }

    method TakeCached(n: nat) returns (out: seq<byte>)
      requires Valid() && cmode == READ && Fits(n)
      modifies this`vfptr
      ensures Valid() && out == Window(disk, old(vfptr), n) && vfptr == old(vfptr) + |out|
    {
      hide Flat, PageCount;
      FlatLength(pages);
      EnoughPages(size, |pages|);
      var pos, ofs := (vfptr - offset) / PAGE, (vfptr - offset) % PAGE;
      out := FromPages(pos, ofs, n);
      if n > 0 {
        InCache(Flat(pages), disk, offset, size, vfptr - offset, n);
      }
      vfptr := vfptr + n;
    }

    /** A read past the cache. */
    method ReadThrough(n: nat) returns (out: seq<byte>)
      requires Valid() && cmode == READ
      modifies this`dwPos, this`dwLen, this`vfptr
      ensures Valid() && out == Window(disk, old(vfptr), n) && vfptr == old(vfptr) + |out|
      ensures old(LenRight()) && old(vfptr) <= |disk| ==> LenRight()
    {
      InternalSeek(vfptr);
      out := InternalRead(n);
      vfptr := dwPos;
    }

    /** Caches the next bytes, unless that is not worth it: all that are wanted, or all there are. */
    method Refill(n: nat) returns (cached: bool)
      requires Valid() && cmode == READ && n <= PAGE
      modifies this
      ensures Valid() && cmode == READ && disk == old(disk) && vfptr == old(vfptr)
      ensures old(LenRight()) && vfptr <= |disk| ==> LenRight()
      ensures cached ==> offset == vfptr && (Fits(n) || (Window(disk, vfptr, n) == Window(disk, vfptr, size) && dwLen == Some(vfptr + size)))
    {
      hide Flat, PageCount, Zeros, Patched, Put, Pages, Window;
      Flush();
      var core: nat := *;
      var buffer: nat := *;
      if core == 0 || buffer < PAGE {
        return false;
      }
      InternalSeek(vfptr);
      offset := vfptr;
      var dat := InternalRead(if n < 500 then 2048 else PAGE);
      size := |dat|;
      WindowIs(disk, vfptr, if n < 500 then 2048 else PAGE);
      ShortWindow(disk, vfptr, n, if n < 500 then 2048 else PAGE);
      FirstPage(dat);
      pages := [Patched(Zeros(PAGE), 0, dat)];
      cached := true;
    }

    /**
      * Reads like a plain file, whatever length is remembered. Outside the read mode a read behind the end makes the program
      * remember its position as the length: exactly then a right length becomes wrong.
      */
    method Read(n0: nat) returns (out: seq<byte>)
      requires Valid()
      modifies this
      ensures Valid() && cmode == old(cmode)
      ensures out == Window(old(Value()).data, old(Value()).pos, n0)
      ensures Value() == Plain(old(Value()).data, old(Value()).pos + |out|)
      ensures old(LenRight()) ==> (LenRight() <==> !ReadMisleads(n0, cmode, old(Value())))
      ensures ReadMisleads(n0, cmode, old(Value())) ==> dwLen == Some(Value().pos) && (cmode == WRIT ==> size == 0)
    {
      if cmode == READ {
        out := ReadCached(n0);
      } else if cmode == WRIT {
        UnCache();
        out := InternalRead(n0);
        CacheW();
      } else {
        out := InternalRead(n0);
      }
    }

    method ReadCached(n0: nat) returns (out: seq<byte>)
      requires Valid() && cmode == READ
      modifies this
      ensures Valid() && cmode == READ && disk == old(disk)
      ensures out == Window(disk, old(vfptr), n0) && vfptr == old(vfptr) + |out|
      ensures old(LenRight()) ==> LenRight()
    {
      hide Flat, PageCount;
      var n := n0;
      if !Fits(n) {
        var len := InternalLen();
        if len < vfptr + n {
          if vfptr > len {
            return [];
          }
          n := len - vfptr;
          if n == 0 {
            return [];
          }
        }
      }
      if Fits(n) {
        out := TakeCached(n);
        return;
      }
      if n > PAGE {
        out := ReadThrough(n);
        return;
      }
      var cached := Refill(n);
      if !cached {
        out := ReadThrough(n);
        return;
      }
      if !Fits(n) {
        // the read was short, and its end is the length now
        n := size;
        if n == 0 {
          return [];
        }
      }
      out := TakeCached(n);
    }

    /** The length given after a read is that of the file exactly when the read did not start behind the end. */
    method ReadThenSize(n0: nat) returns (out: seq<byte>, n: nat)
      requires Valid() && LenRight()
      modifies this
      ensures out == Window(old(Value()).data, old(Value()).pos, n0)
      ensures n == |old(Value()).data| <==> !ReadMisleads(n0, old(cmode), old(Value()))
    {
      out := Read(n0);
      n := GetFileSize();
    }

    /** Defers bytes: they go behind the cached ones. */
    method Append(d: seq<byte>)
      requires Valid() && cmode == WRIT
      modifies this`pages, this`size, this`vfptr
      ensures Valid() && cmode == WRIT && Value() == Plain(Put(old(Value()).data, old(vfptr), d), old(vfptr) + |d|)
    {
      hide Flat, PageCount, Put, Zeros;
      ghost var before := Cached();
      FlatLength(pages);
      EnoughPages(size, |pages|);
      var pos, ofs := (vfptr - offset) / PAGE, (vfptr - offset) % PAGE;
      PageCounts(size, pos, ofs);
      size := size + |d|;
      vfptr := vfptr + |d|;
      if ofs == 0 {
        FlatMore(pages, Zeros(PAGE));
        PrefixKept(Flat(pages), Zeros(PAGE));
        pages := pages + [Zeros(PAGE)];
      }
      ghost var start := PAGE * pos + ofs;
      assert Pages(pages) && |pages| == pos + 1;
      FlatLength(pages);
      assert Flat(pages)[..start] == before;
      pos, ofs := Fill(pos, ofs, d);
      PageCounts(size, pos, ofs);
      if ofs == 0 {
        FlatDrop(pages);
        pages := pages[..pos];
      }
      PutPut(disk, offset, before, d);
    }

    /** Writes like a plain file; a write of no bytes may set the length to the position, unless it is deferred. */
    method Write(d: seq<byte>)
      requires Valid()
      modifies this
      ensures Valid() && cmode == old(cmode)
      ensures d != [] ==> Value().data == Put(old(Value()).data, old(Value()).pos, d)
      ensures d == [] ==> Value().data == old(Value()).data || Value().data == SetLength(old(Value()).data, old(Value()).pos)
      ensures Value().pos == old(Value()).pos + |d|
      ensures old(LenRight()) && !WriteMisleads(d, old(Value())) ==> LenRight()
    {
      hide Flat, PageCount, Pages, SetLength;
      if cmode == NONE {
        InternalWrite(d);
      } else if cmode == WRIT {
        var core: nat := *;
        if core < |d| / PAGE + 2 {
          Flush();
          core := *;
          if core < |d| / PAGE + 2 {
            InternalSeek(vfptr);
            InternalWrite(d);
            vfptr := vfptr + |d|;
            offset := vfptr;
            return;
          }
        }
        Append(d);
      } else {
        UnCache();
        InternalWrite(d);
        CacheR();
      }
    }

    method Seek(pos: nat)
      requires Valid()
      modifies this
      ensures Valid() && (old(LenRight()) ==> LenRight()) && cmode == old(cmode) && Value() == Plain(old(Value()).data, pos)
    {
      if cmode == NONE {
        InternalSeek(pos);
      } else {
        if vfptr == pos {
          return;
        }
        if cmode == WRIT {
          Flush();
          offset := pos;
        }
        vfptr := pos;
      }
    }

    method Tell() returns (pos: nat)
      requires Valid()
      ensures pos == Value().pos
    {
      pos := if cmode == NONE then dwPos else vfptr;
    }

    method GetFileSize() returns (n: nat)
      requires Valid()
      modifies this
      ensures Valid() && cmode == old(cmode) && Value() == old(Value())
      ensures n >= |Value().data| && (old(LenRight()) ==> LenRight() && n == |Value().data|)
      ensures dwLen == Some(n)
      ensures old(cmode) != WRIT || old(size) == 0 ==> n == if old(dwLen).Some? then old(dwLen).value else |Value().data|
    {
      if cmode != WRIT {
        n := InternalLen();
      } else {
        UnCache();
        n := InternalLen();
        CacheW();
      }
    }

    /**
      * Any sequence of operations in any modes gives the results of a plain file, and leaves its contents on disk. A write
      * of no bytes may or may not set the plain file's length. Once an operation has misled the program about the length,
      * sizes may come out too large; only taking in the whole file then goes wrong, and the run is followed up to there.
      */
    method Run(ops: seq<Op>) returns (results: seq<Outcome>, ghost fs: seq<Plain>)
      requires Valid() && LenRight()
      modifies this
      ensures |results| <= |ops| && Trace(ops[..|results|], fs) && fs[0] == old(Value())
      ensures forall i :: 0 <= i < |results| ==> Matches(ops[i], fs[i], Trusted(ops, old(cmode), fs, i), results[i])
      ensures |results| < |ops| ==> TakesWhole(ops[|results|]) && !Trusted(ops, old(cmode), fs, |results|)
      ensures Valid() && disk == fs[|results|].data && Value() == fs[|results|]
    {
      hide Put, Window, SetLength, Next, OutcomeOf, Misleads, Zeros, Flat, Trusted, Trace, ModeAfter, MayFollow;
      results, fs := [], [Value()];
      ghost var mode := cmode;
      NoOps(ops, mode, Value());
      for i := 0 to |ops|
        invariant Valid() && |results| == i && |fs| == i + 1 && Trace(ops[..i], fs) && fs[0] == old(Value()) && Value() == fs[i]
        invariant cmode == ModeAfter(ops[..i], mode) && (Trusted(ops, mode, fs, i) ==> LenRight())
        invariant forall k :: 0 <= k < i ==> Matches(ops[k], fs[k], Trusted(ops, mode, fs, k), results[k])
      {
        if TakesWhole(ops[i]) && !LenRight() {
          UnCache();
          return;
        }
        ghost var f := Value();
        var r := Perform(ops[i]);
        TrustedMore(ops, mode, fs, Value(), i);
        TraceMore(ops, fs, Value(), i);
        ModeMore(ops, mode, i);
        MatchesMore(ops, mode, fs, Value(), results, r, i);
        results, fs := results + [r], fs + [Value()];
      }
      assert ops[..|ops|] == ops;
      UnCache();
    }

    method Perform(op: Op) returns (r: Outcome)
      requires Valid() && (TakesWhole(op) ==> LenRight())
      modifies this
      ensures Valid() && cmode == NextMode(op, old(cmode))
      ensures MayFollow(op, old(Value()), Value()) && Matches(op, old(Value()), old(LenRight()), r)
      ensures old(LenRight()) && !Misleads(op, old(cmode), old(Value())) ==> LenRight()
    {
      hide Put, Window, SetLength, Zeros;
      match op {
        case ReadOp(n) =>
          var out := Read(n);
          r := Bytes(out);
        case WriteOp(d) =>
          NothingPut(Value().data, Value().pos);
          Write(d);
          r := Done;
        case SeekOp(pos) =>
          Seek(pos);
          r := Done;
        case TellOp =>
          var pos := Tell();
          r := Number(pos);
        case SizeOp =>
          var n := GetFileSize();
          r := Number(n);
        case CacheOp(total, mode) =>
          if mode == NONE {
            UnCache();
          } else if mode == WRIT {
            CacheW();
          } else if total {
            CacheRT();
          } else {
            CacheR();
          }
          r := Done;
      }
    }
  }

  // ----- sequences of operations -----

  datatype Op = ReadOp(n: nat) | WriteOp(d: seq<byte>) | SeekOp(pos: nat) | TellOp | SizeOp | CacheOp(total: bool, mode: Mode)

  datatype Outcome = Bytes(b: seq<byte>) | Number(n: nat) | Done

  function Next(op: Op, f: Plain): Plain
  {
    match op
    case ReadOp(n) => Plain(f.data, f.pos + |Window(f.data, f.pos, n)|)
    case WriteOp(d) => Plain(Put(f.data, f.pos, d), f.pos + |d|)
    case SeekOp(pos) => Plain(f.data, pos)
    case TellOp => f
    case SizeOp => f
    case CacheOp(_, _) => f
  }

  function OutcomeOf(op: Op, f: Plain): Outcome
  {
    match op
    case ReadOp(n) => Bytes(Window(f.data, f.pos, n))
    case WriteOp(_) => Done
    case SeekOp(_) => Done
    case TellOp => Number(f.pos)
    case SizeOp => Number(|f.data|)
    case CacheOp(_, _) => Done
  }

  /** A read outside the read mode that starts behind the end. */
  predicate ReadMisleads(n: nat, mode: Mode, f: Plain)
  {
    mode != READ && n > 0 && f.pos > |f.data|
  }

  /** A write of no bytes anywhere but at the end. */
  predicate WriteMisleads(d: seq<byte>, f: Plain)
  {
    d == [] && f.pos != |f.data|
  }

  predicate Misleads(op: Op, mode: Mode, f: Plain)
  {
    (op.ReadOp? && ReadMisleads(op.n, mode, f)) || (op.WriteOp? && WriteMisleads(op.d, f))
  }

  function NextMode(op: Op, mode: Mode): Mode
  {
    if op.CacheOp? then op.mode else mode
  }

  function ModeAfter(ops: seq<Op>, mode: Mode): Mode
  {
    if ops == [] then mode else NextMode(ops[|ops| - 1], ModeAfter(ops[..|ops| - 1], mode))
  }

  /** Taking in the whole file trusts the remembered length. */
  predicate TakesWhole(op: Op)
  {
    op.CacheOp? && op.total && op.mode == READ
  }

  /** What an operation may make of a plain file. */
  predicate MayFollow(op: Op, f: Plain, f': Plain)
  {
    f' == Next(op, f) || (op == WriteOp([]) && f' == Plain(SetLength(f.data, f.pos), f.pos))
  }

  /** The result is that of a plain file; a size that cannot be trusted may be too large. */
  predicate Matches(op: Op, f: Plain, trusted: bool, r: Outcome)
  {
    r == OutcomeOf(op, f) || (op.SizeOp? && !trusted && r.Number? && r.n >= |f.data|)
  }

  ghost predicate Trace(ops: seq<Op>, fs: seq<Plain>)
  {
    |fs| == |ops| + 1 && forall i :: 0 <= i < |ops| ==> MayFollow(ops[i], fs[i], fs[i + 1])
  }

  /** No operation before the given one has misled the program about the length. */
  ghost predicate Trusted(ops: seq<Op>, mode: Mode, fs: seq<Plain>, n: nat)
    requires n <= |ops| && n <= |fs|
  {
    forall j :: 0 <= j < n ==> !Misleads(ops[j], ModeAfter(ops[..j], mode), fs[j])
  }

  lemma NoOps(ops: seq<Op>, mode: Mode, f: Plain)
    ensures Trace(ops[..0], [f]) && ModeAfter(ops[..0], mode) == mode && Trusted(ops, mode, [f], 0)
  {
  }

  lemma TraceMore(ops: seq<Op>, fs: seq<Plain>, f: Plain, i: nat)
    requires i < |ops| && Trace(ops[..i], fs) && MayFollow(ops[i], fs[i], f)
    ensures Trace(ops[..i + 1], fs + [f])
  {
    hide MayFollow;
    forall k | 0 <= k < i + 1 ensures MayFollow(ops[..i + 1][k], (fs + [f])[k], (fs + [f])[k + 1]) {
      if k < i {
        assert MayFollow(ops[..i][k], fs[k], fs[k + 1]);
      }
    }
  }

  lemma ModeMore(ops: seq<Op>, mode: Mode, i: nat)
    requires i < |ops|
    ensures ModeAfter(ops[..i + 1], mode) == NextMode(ops[i], ModeAfter(ops[..i], mode))
  {
    hide NextMode;
    assert ops[..i + 1][..i] == ops[..i];
  }

  lemma TrustedMore(ops: seq<Op>, mode: Mode, fs: seq<Plain>, f: Plain, i: nat)
    requires i < |ops| && |fs| == i + 1
    ensures forall k :: 0 <= k <= i ==> (Trusted(ops, mode, fs + [f], k) <==> Trusted(ops, mode, fs, k))
    ensures Trusted(ops, mode, fs + [f], i + 1) <==> Trusted(ops, mode, fs, i) && !Misleads(ops[i], ModeAfter(ops[..i], mode), fs[i])
  {
    hide Misleads, ModeAfter;
  }

  lemma MatchesMore(ops: seq<Op>, mode: Mode, fs: seq<Plain>, f: Plain, results: seq<Outcome>, r: Outcome, i: nat)
    requires i < |ops| && |fs| == i + 1 && |results| == i && Matches(ops[i], fs[i], Trusted(ops, mode, fs, i), r)
    requires forall k :: 0 <= k < i ==> Matches(ops[k], fs[k], Trusted(ops, mode, fs, k), results[k])
    ensures forall k :: 0 <= k < i + 1 ==> Matches(ops[k], (fs + [f])[k], Trusted(ops, mode, fs + [f], k), (results + [r])[k])
  {
    hide Matches, Trusted;
    TrustedMore(ops, mode, fs, f, i);
  }

  // ----- slices -----

  lemma InCache(flat: seq<byte>, disk: seq<byte>, offset: nat, size: nat, from: nat, n: nat)
    requires size <= |flat| && offset + size <= |disk| && flat[..size] == disk[offset..offset + size] && from + n <= size && n > 0
    ensures flat[from..from + n] == Window(disk, offset + from, n) && |Window(disk, offset + from, n)| == n
  {
    SliceOfSlice(flat, 0, size, from, n);
    SliceOfSlice(disk, offset, offset + size, from, n);
  }

  lemma SliceOfSlice(s: seq<byte>, a: nat, b: nat, from: nat, n: nat)
    requires a <= b <= |s| && a + from + n <= b
    ensures s[a..b][from..from + n] == s[a + from..a + from + n]
  {
    var x, y := s[a..b][from..from + n], s[a + from..a + from + n];
    forall k | 0 <= k < n ensures x[k] == y[k] {
      assert x[k] == s[a..b][from + k] == s[a + (from + k)];
    }
    assert x == y;
  }

  lemma WindowIs(data: seq<byte>, pos: nat, n: nat)
    ensures var w := Window(data, pos, n); w != [] ==> pos + |w| <= |data| && w == data[pos..pos + |w|]
  {
  }

  /** A read that falls short gives all that a shorter request would. */
  lemma ShortWindow(data: seq<byte>, pos: nat, n: nat, m: nat)
    requires n <= m
    ensures var w := Window(data, pos, m); n <= |w| || (|w| < m && Window(data, pos, n) == Window(data, pos, |w|))
  {
  }

  lemma FirstPage(dat: seq<byte>)
    requires |dat| <= PAGE
    ensures var pages := [Patched(Zeros(PAGE), 0, dat)];
            Pages(pages) && |Flat(pages)| == PAGE && Flat(pages)[..|dat|] == dat && PageCount(|dat|) <= 1
  {
    var pages := [Patched(Zeros(PAGE), 0, dat)];
    assert pages[..0] == [];
  }

  lemma OnePage()
    ensures var pages := [Zeros(PAGE)]; Pages(pages) && |Flat(pages)| == PAGE && Flat(pages)[..0] == []
  {
    var pages := [Zeros(PAGE)];
    assert pages[..0] == [];
  }

  lemma FlatDrop(pages: seq<seq<byte>>)
    requires Pages(pages) && pages != []
    ensures var n := |pages| - 1;
            && Pages(pages[..n]) && |Flat(pages[..n])| == PAGE * n && |Flat(pages)| == PAGE * |pages|
            && Flat(pages)[..PAGE * n] == Flat(pages[..n]) && Flat(pages[..n])[..PAGE * n] == Flat(pages[..n])
  {
    FlatLength(pages);
    FlatLength(pages[..|pages| - 1]);
  }

  lemma MorePieces(pages: seq<seq<byte>>, pos: nat, ofs: nat, n: nat, written: seq<byte>, dat: seq<byte>)
    requires Pages(pages) && pos < |pages| && ofs + n <= PAGE
    requires |Flat(pages)| == PAGE * |pages| && written + dat == Flat(pages)[..PAGE * pos + ofs]
    ensures |pages[pos]| == PAGE && written + (dat + pages[pos][ofs..ofs + n]) == Flat(pages)[..PAGE * pos + ofs + n]
    ensures |pages[pos][ofs..ofs + n]| == n && forall x: seq<byte> :: x + [] == x
  {
    hide Flat;
    FlatPiece(pages, pos, ofs, ofs + n);
    PageLength(pages, pos);
    NextPiece(Flat(pages), 0, PAGE * pos + ofs, n);
    Regroup(written, dat, pages[pos][ofs..ofs + n]);
  }

  lemma PageLength(pages: seq<seq<byte>>, i: nat)
    requires Pages(pages) && i < |pages|
    ensures |pages[i]| == PAGE
  {
  }

  lemma Shift(front: seq<byte>, done: seq<byte>, rest: seq<byte>, n: nat)
    requires n <= |rest|
    ensures front + done + rest[..n] == front + (done + rest[..n]) && done + rest[..n] + rest[n..] == done + rest
  {
  }

  lemma PrefixKept(a: seq<byte>, b: seq<byte>)
    ensures (a + b)[..|a|] == a && a[..|a|] == a
  {
  }

  lemma Regroup(a: seq<byte>, b: seq<byte>, c: seq<byte>)
    ensures a + b + c == a + (b + c)
  {
  }

  lemma NextRead(s: seq<byte>, at: nat, n: nat)
    requires at + n <= |s|
    ensures |Window(s, at, n)| == n && s[..at] + Window(s, at, n) == s[..at + n]
  {
  }

  lemma NextPiece(s: seq<byte>, from: nat, at: nat, n: nat)
    requires from <= at && at + n <= |s|
    ensures s[from..at] + s[at..at + n] == s[from..at + n]
  {
  }

  lemma EnoughPages(n: nat, pages: nat)
    requires pages >= PageCount(n)
    ensures n <= PAGE * pages
  {
  }
}
