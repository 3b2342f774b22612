/** The snapshot repository's operations, one durable step at a time. */
module SnapshotRepo {
  import opened BitStrings
  import opened Options
  import opened BitIO
  import Chunking
  import opened Snapshots

  // ----- growing a shelf -----

  /** Chunks are added and nothing else changes. */
  ghost predicate ShelfGrows(x: Shelf, y: Shelf)
  {
    && y.snaps == x.snaps
    && forall d :: d in x.chunks ==> d in y.chunks && y.chunks[d] == x.chunks[d]
  }

  /** Every stored object has the digest it is stored under. */
  ghost predicate Intact(h: Hashes, x: Shelf)
  {
    && (forall d :: d in x.chunks ==> h.bytes(x.chunks[d]) == d)
    && (forall a :: a in x.snaps ==> h.manifest(x.snaps[a]) == a)
  }

  /** Different contents have different digests. */
  ghost predicate CollisionFree(h: Hashes)
  {
    && (forall x: seq<byte>, y: seq<byte> :: h.bytes(x) == h.bytes(y) ==> x == y)
    && (forall x: Manifest, y: Manifest :: h.manifest(x) == h.manifest(y) ==> x == y)
  }

  ghost predicate MayGrow(s: Store, s': Store)
  {
    StoreOk(s) && StoreOk(s') && s'.packed == s.packed && ShelfGrows(Active(s), Active(s'))
  }

  lemma GrowIsCreate(h: Hashes, s: Store, s': Store)
    requires MayGrow(s, s')
    ensures MayCreate(h, s, s')
  {
    hide Readable;
  }

  lemma GrownFiles(h: Hashes, x: Shelf, y: Shelf, entries: seq<Entry>)
    requires ShelfGrows(x, y)
    ensures Files(h, x, entries).Some? ==> Files(h, y, entries) == Files(h, x, entries)
  {
    hide Files, Fetch;
    MoreChunks(h, x, y, ChunkRefs(entries));
    if Files(h, x, entries).Some? {
      FilesKept(h, x, y, entries);
    }
  }

  lemma GrownRefs(h: Hashes, x: Shelf, y: Shelf, refs: seq<Ref>)
    requires ShelfGrows(x, y)
    ensures FetchAll(h, x, refs).Some? ==> FetchAll(h, y, refs) == FetchAll(h, x, refs)
  {
    hide FetchAll, Fetch;
    MoreChunks(h, x, y, set r | r in refs);
    if FetchAll(h, x, refs).Some? {
      FetchAllKept(h, x, y, refs);
    }
  }

  lemma AppendRef(h: Hashes, shelf: Shelf, refs: seq<Ref>, r: Ref)
    ensures FetchAll(h, shelf, refs).Some? && Fetch(h, shelf, r).Some?
            ==> FetchAll(h, shelf, refs + [r]) == Some(FetchAll(h, shelf, refs).value + Fetch(h, shelf, r).value)
  {
    hide Fetch;
    assert (refs + [r])[..|refs|] == refs;
  }

  lemma AppendEntry(h: Hashes, shelf: Shelf, entries: seq<Entry>, e: Entry)
    ensures Files(h, shelf, entries).Some? && EntrySource(h, shelf, e).Some?
            ==> Files(h, shelf, entries + [e]) == Some(Files(h, shelf, entries).value + [EntrySource(h, shelf, e).value])
  {
    hide EntrySource;
    assert (entries + [e])[..|entries|] == entries;
  }

  class Repository {
    const h: Hashes
    var disk: Store
    var work: Shelf             // the shelf the operation sees: the loose files, or its database transaction
    ghost var history: seq<Store>  // every durable state so far

    ghost predicate Logged()
      reads this
    {
      StoreOk(disk) && history != [] && history[|history| - 1] == disk
    }

    /** An operation holds the lock. */
    ghost predicate Open()
      reads this
    {
      Logged() && (!disk.packed ==> work == disk.loose)
    }

    constructor (h: Hashes)
      ensures Logged() && this.h == h && disk == Store(false, Shelf(map[], map[]), None) && history == [disk]
    {
      this.h := h;
      disk := Store(false, Shelf(map[], map[]), None);
      work := Shelf(map[], map[]);
      history := [Store(false, Shelf(map[], map[]), None)];
    }

    method Begin()
      requires Logged()
      modifies this`work
      ensures Open() && work == Active(disk)
    {
      work := Active(disk);
    }

    /** A change of the shelf: durable at once for loose files, part of the transaction for the database. */
    method SetWork(w: Shelf)
      requires Open()
      modifies this`work, this`disk, this`history
      ensures Open() && work == w && disk.packed == old(disk.packed) && disk.db == old(disk.db)
      ensures if disk.packed then disk == old(disk) && history == old(history)
              else disk.loose == w && history == old(history) + [disk]
    {
      work := w;
      if !disk.packed {
        disk := disk.(loose := w);
        history := history + [disk];
      }
    }

    /** The end of the operation commits the transaction. */
    method Commit()
      requires Open()
      modifies this`disk, this`history
      ensures Open() && Active(disk) == work && disk.packed == old(disk.packed) && disk.loose == old(disk.loose)
      ensures if disk.packed then history == old(history) + [disk] else disk == old(disk) && history == old(history)
    {
      if disk.packed {
        disk := disk.(db := Some(work));
        history := history + [disk];
      }
    }

    // ----- create -----

    /** While a snapshot is being taken: the work shelf has grown, and so has every durable state since the start. */
    ghost predicate Growing(s0: Store, from: nat)
      reads this
    {
      && Open() && StoreOk(s0) && disk.packed == s0.packed && from <= |history|
      && ShelfGrows(Active(s0), work) && (disk.packed ==> disk == s0 && |history| == from)
      && forall k :: from <= k < |history| ==> MayGrow(s0, history[k])
    }

    /** A chunk that is already stored is read back and compared; a new one is added. */
    method StoreChunk(data: seq<byte>, ghost s0: Store, ghost from: nat) returns (ok: bool, digest: Digest)
      requires Growing(s0, from)
      modifies this`work, this`disk, this`history
      ensures Growing(s0, from) && ShelfGrows(old(work), work) && old(history) <= history
      ensures ok ==> Fetch(h, work, Ref(digest, |data|)) == Some(data)
      ensures CollisionFree(h) && Intact(h, old(work)) ==> ok && Intact(h, work)
    {
      digest := h.bytes(data);
      if digest in work.chunks {
        ok := Fetch(h, work, Ref(digest, |data|)) == Some(data);
      } else {
        SetWork(work.(chunks := work.chunks[digest := data]));
        ok := true;
      }
    }

    method StoreFile(path: string, data: seq<byte>, gear: byte -> nat, ghost s0: Store, ghost from: nat) returns (ok: bool, e: Entry)
      requires Growing(s0, from)
      modifies this`work, this`disk, this`history
      ensures Growing(s0, from) && ShelfGrows(old(work), work) && old(history) <= history
      ensures ok ==> EntrySource(h, work, e) == Some(SourceFile(path, data))
      ensures CollisionFree(h) && Intact(h, old(work)) ==> ok && Intact(h, work)
    {
      hide Repository.Growing, Fetch, FetchAll, CollisionFree, Intact;
      ghost var intact := CollisionFree(h) && Intact(h, work);
      var stream := new ByteSource(data);
      var pieces := Chunking.ChunkStream(stream, gear, 13);
      PiecesJoin(gear, data);
      assert data[0..] == data;
      e := DirEntry(path);
      var refs, size := [], 0;
      ghost var done := [];
      NoRefs(work);
      for k := 0 to |pieces|
        invariant Growing(s0, from) && ShelfGrows(old(work), work) && old(history) <= history
        invariant done + Chunking.Join(pieces[k..]) == data && size == |done|
        invariant FetchAll(h, work, refs) == Some(done) && (intact ==> Intact(h, work))
      {
        ghost var before := work;
        var d;
        ok, d := StoreChunk(pieces[k], s0, from);
        if !ok {
          return;
        }
        GrownRefs(h, before, work, refs);
        AppendRef(h, work, refs, Ref(d, |pieces[k]|));
        JoinStep(pieces, k, done);
        refs := refs + [Ref(d, |pieces[k]|)];
        size := size + |pieces[k]|;
        done := done + pieces[k];
      }
      assert pieces[|pieces|..] == [];
      assert done + [] == done;
      e := FileEntry(path, refs, h.bytes(data), size);
      ok := true;
    }

    lemma NoRefs(shelf: Shelf)
      ensures FetchAll(h, shelf, []) == Some([])
    {
    }

    lemma JoinStep(pieces: seq<seq<byte>>, k: nat, done: seq<byte>)
      requires k < |pieces|
      ensures done + Chunking.Join(pieces[k..]) == done + pieces[k] + Chunking.Join(pieces[k + 1..])
    {
      assert pieces[k..][1..] == pieces[k + 1..];
    }

    lemma PiecesJoin(gear: byte -> nat, data: seq<byte>)
      ensures var pieces := Chunking.Chunks(Chunking.Init(gear, 13, 0, 0), data);
              [] + Chunking.Join(pieces[0..]) == data
    {
      var p := Chunking.Init(gear, 13, 0, 0);
      Chunking.ChunksJoin(p, data);
      assert Chunking.Chunks(p, data)[0..] == Chunking.Chunks(p, data);
    }

    method StoreAll(sources: seq<Source>, gear: byte -> nat, ghost s0: Store, ghost from: nat) returns (ok: bool, entries: seq<Entry>)
      requires Growing(s0, from)
      modifies this`work, this`disk, this`history
      ensures Growing(s0, from) && old(history) <= history
      ensures ok ==> Files(h, work, entries) == Some(sources)
      ensures CollisionFree(h) && Intact(h, old(work)) ==> ok && Intact(h, work)
    {
      hide Repository.Growing, Files, EntrySource, CollisionFree, Intact;
      ghost var intact := CollisionFree(h) && Intact(h, work);
      entries := [];
      assert sources[..0] == [];
      NoFiles(work);
      for i := 0 to |sources|
        invariant Growing(s0, from) && old(history) <= history && Files(h, work, entries) == Some(sources[..i])
        invariant intact ==> Intact(h, work)
      {
        ghost var before := work;
        var e := DirEntry(sources[i].path);
        match sources[i] {
          case SourceDir(path) =>
            ok := true;
            DirIs(work, path);
            SelfGrows(work);
          case SourceFile(path, data) =>
            ok, e := StoreFile(path, data, gear, s0, from);
        }
        if !ok {
          return;
        }
        GrownFiles(h, before, work, entries);
        AppendEntry(h, work, entries, e);
        assert sources[..i + 1] == sources[..i] + [sources[i]];
        entries := entries + [e];
      }
      assert sources[..|sources|] == sources;
      ok := true;
    }

    lemma NoFiles(shelf: Shelf)
      ensures Files(h, shelf, []) == Some([])
    {
    }

    lemma DirIs(shelf: Shelf, path: string)
      ensures EntrySource(h, shelf, DirEntry(path)) == Some(SourceDir(path))
    {
    }

    lemma SelfGrows(shelf: Shelf)
      ensures ShelfGrows(shelf, shelf)
    {
    }

    /** The manifest is added under its digest, unless the same one is there already. */
    method SaveManifest(m: Manifest, ghost s0: Store, ghost from: nat) returns (ok: bool)
      requires Growing(s0, from) && Files(h, work, m.entries).Some?
      modifies this`work, this`disk, this`history
      ensures Open() && disk.packed == s0.packed && old(history) <= history && work.chunks == old(work.chunks)
      ensures disk.packed ==> disk == s0 && history == old(history)
      ensures forall k :: from <= k < |history| ==> MayCreate(h, s0, history[k])
      ensures StoreOk(s0) && (ok ==> MayCreateShelf(h, Active(s0), work) && work.snaps == old(work).snaps[h.manifest(m) := m])
      ensures !ok ==> work == old(work) && disk == old(disk)
      ensures CollisionFree(h) && Intact(h, old(work)) ==> ok
    {
      hide Files, Fetch, Readable;
      forall k | from <= k < |history| ensures MayCreate(h, s0, history[k]) {
        GrowIsCreate(h, s0, history[k]);
      }
      var address := h.manifest(m);
      ghost var before := work;
      if address in work.snaps {
        ok := work.snaps[address] == m;
      } else {
        var w := work.(snaps := work.snaps[address := m]);
        NewSnapReadable(before, w, m);
        SetWork(w);
        ok := true;
      }
    }

    lemma SameChunks(x: Shelf, y: Shelf, entries: seq<Entry>)
      requires x.chunks == y.chunks
      ensures Files(h, y, entries) == Files(h, x, entries)
    {
      hide Files;
      MoreChunks(h, x, y, ChunkRefs(entries));
      MoreChunks(h, y, x, ChunkRefs(entries));
      if Files(h, x, entries).Some? {
        FilesKept(h, x, y, entries);
      } else if Files(h, y, entries).Some? {
        FilesKept(h, y, x, entries);
      }
    }

    lemma NewSnapReadable(x: Shelf, y: Shelf, m: Manifest)
      requires Files(h, x, m.entries).Some? && y == x.(snaps := x.snaps[h.manifest(m) := m])
      ensures Readable(h, y, h.manifest(m))
    {
      hide Files;
      SameChunks(x, y, m.entries);
    }

    /** Takes a snapshot of the sources; a failure leaves at most unreferenced chunks. */
    method Create(sources: seq<Source>, created: int, name: string, gear: byte -> nat) returns (r: Option<Digest>)
      requires Logged()
      modifies this
      ensures Logged() && old(history) <= history
      ensures forall k :: |old(history)| <= k < |history| ==> MayCreate(h, old(disk), history[k])
      ensures r.Some? ==> Readable(h, Active(disk), r.value) && Files(h, Active(disk), Active(disk).snaps[r.value].entries) == Some(sources)
      ensures r.Some? ==> var m := Active(disk).snaps[r.value];
                          m.created == created && m.name == name && Active(disk).snaps == Active(old(disk)).snaps[r.value := m]
      ensures r.None? ==> Active(disk).snaps == Active(old(disk)).snaps
      ensures CollisionFree(h) && Intact(h, Active(old(disk))) ==> r.Some?
    {
      hide Files, Fetch, CollisionFree, Intact;
      Begin();
      ghost var s0, from := disk, |history|;
      SelfGrows(work);
      var ok, entries := StoreAll(sources, gear, s0, from);
      if !ok {
        forall k | from <= k < |history| ensures MayCreate(h, s0, history[k]) {
          GrowIsCreate(h, s0, history[k]);
        }
        return None;
      }
      var m := Manifest(created, name, entries);
      ghost var full := work;
      ok := SaveManifest(m, s0, from);
      if !ok {
        return None;
      }
      SameChunks(full, work, entries);
      Commit();
      ShelfIsCreate(h, s0, disk);
      r := Some(h.manifest(m));
    }

    // ----- prune -----

    /** The snapshots from the oldest to the newest. */
    method SortDescriptions(snaps: map<Digest, Manifest>) returns (s: seq<Digest>)
      ensures InOrder(snaps, s) && Elements(s) == snaps.Keys
    {
      s := [];
      var todo := snaps.Keys;
      while todo != {}
        invariant todo <= snaps.Keys && InOrder(snaps, s) && Elements(s) == snaps.Keys - todo
        decreases todo
      {
        var a :| a in todo;
        s := InsertInOrder(snaps, s, a);
        todo := todo - {a};
      }
    }

    method InsertInOrder(snaps: map<Digest, Manifest>, s: seq<Digest>, a: Digest) returns (r: seq<Digest>)
      requires InOrder(snaps, s) && a in snaps && a !in s
      ensures InOrder(snaps, r) && Elements(r) == Elements(s) + {a}
    {
      var q := 0;
      while q < |s| && Newer(snaps, a, s[q])
        invariant q <= |s| && forall k :: 0 <= k < q ==> Newer(snaps, a, s[k])
      {
        q := q + 1;
      }
      r := s[..q] + [a] + s[q..];
      InsertedOrder(snaps, s, a, q);
      assert s == s[..q] + s[q..];
    }

    lemma InsertedOrder(snaps: map<Digest, Manifest>, s: seq<Digest>, a: Digest, q: nat)
      requires InOrder(snaps, s) && a in snaps && a !in s && q <= |s|
      requires forall k :: 0 <= k < q ==> Newer(snaps, a, s[k])
      requires q < |s| ==> !Newer(snaps, a, s[q])
      ensures InOrder(snaps, s[..q] + [a] + s[q..])
    {
      forall k | q <= k < |s| ensures Newer(snaps, s[k], a) {
        assert s[q] in s;
        if k > q {
          assert Newer(snaps, s[k], s[q]);
        }
      }
    }

    /** Old manifests go first, each durably, then the chunks nothing retained needs. */
    method RemoveSnaps(obsolete: set<Digest>, retained: set<Digest>, ghost s0: Store, ghost from: nat)
      requires Open() && disk == s0 && |history| == from && work == Active(s0)
      requires retained <= work.snaps.Keys && obsolete == work.snaps.Keys - retained
      modifies this`work, this`disk, this`history
      ensures Open() && disk.packed == s0.packed && old(history) <= history && (disk.packed ==> disk == s0 && history == old(history))
      ensures work.chunks == Active(s0).chunks && work.snaps == (map a | a in Active(s0).snaps && a in retained :: Active(s0).snaps[a])
      ensures forall k :: from <= k < |history| ==> MayPrune(s0, history[k], retained)
    {
      hide Live;
      var todo := obsolete;
      ghost var x := Active(s0);
      while todo != {}
        invariant Open() && disk.packed == s0.packed && old(history) <= history && (disk.packed ==> disk == s0 && history == old(history))
        invariant todo <= obsolete && work.chunks == x.chunks && work.snaps == x.snaps - (obsolete - todo)
        invariant forall k :: from <= k < |history| ==> MayPrune(s0, history[k], retained)
        decreases todo
      {
        var a :| a in todo;
        todo := todo - {a};
        SetWork(work.(snaps := work.snaps - {a}));
        assert work.snaps == x.snaps - (obsolete - todo);
      }
    }

    method RemoveChunks(orphans: set<Digest>, retained: set<Digest>, ghost s0: Store, ghost from: nat)
      requires Open() && StoreOk(s0) && disk.packed == s0.packed && from <= |history| && (disk.packed ==> disk == s0 && |history| == from)
      requires work.chunks == Active(s0).chunks && retained <= Active(s0).snaps.Keys
      requires work.snaps == (map a | a in Active(s0).snaps && a in retained :: Active(s0).snaps[a])
      requires orphans == work.chunks.Keys - Live(Active(s0).snaps, retained)
      requires forall k :: from <= k < |history| ==> MayPrune(s0, history[k], retained)
      modifies this`work, this`disk, this`history
      ensures Open() && disk.packed == s0.packed && old(history) <= history && (disk.packed ==> disk == s0 && history == old(history))
      ensures work == PrunedShelf(Active(s0), retained)
      ensures forall k :: from <= k < |history| ==> MayPrune(s0, history[k], retained)
    {
      hide Live, MayPrune;
      var todo := orphans;
      ghost var x, live := Active(s0), Live(Active(s0).snaps, retained);
      assert work.snaps.Keys == retained;
      while todo != {}
        invariant Open() && disk.packed == s0.packed && old(history) <= history && (disk.packed ==> disk == s0 && history == old(history))
        invariant todo <= orphans && work.chunks == x.chunks - (orphans - todo)
        invariant work.snaps == (map a | a in x.snaps && a in retained :: x.snaps[a]) && work.snaps.Keys == retained
        invariant forall k :: from <= k < |history| ==> MayPrune(s0, history[k], retained)
        decreases todo
      {
        var d :| d in todo;
        todo := todo - {d};
        ghost var w := work.(chunks := work.chunks - {d});
        assert w.chunks == x.chunks - (orphans - todo);
        SetWork(work.(chunks := work.chunks - {d}));
        if !disk.packed {
          PartlyPruned(s0, disk, retained, orphans - todo);
        }
      }
      assert work.chunks == (map d | d in x.chunks && d in live :: x.chunks[d]);
    }

    /** Plans a retention, and applies it if asked to. */
    method Prune(keepLast: nat, keep: set<Digest>, apply: bool) returns (r: Option<set<Digest>>)
      requires Logged()
      modifies this
      ensures Logged() && old(history) <= history
      ensures var x := Active(old(disk));
              && (r.Some? <==> Sound(h, old(disk)) && keep <= x.snaps.Keys && (Retained(x.snaps, keep, keepLast) != {} || x.snaps == map[]))
              && (r.Some? ==> r.value == Retained(x.snaps, keep, keepLast))
              && (r.Some? && apply ==> Active(disk) == PrunedShelf(x, r.value))
      ensures !(r.Some? && apply) ==> disk == old(disk) && history == old(history)
      ensures r.Some? ==> forall k :: |old(history)| <= k < |history| ==> MayPrune(old(disk), history[k], r.value)
    {
      hide Readable, Live, InOrder, Latest, PrunedShelf, MayPrune;
      Begin();
      ghost var s0, from := disk, |history|;
      var addresses := work.snaps.Keys;
      if !(forall a | a in work.snaps.Keys :: Readable(h, work, a)) || !(keep <= addresses) {
        return None;
      }
      var order := SortDescriptions(work.snaps);
      LastAreLatest(work.snaps, order, keepLast);
      var newest := order[TailFrom(|order|, keepLast)..];
      var retained := keep + set a | a in newest;
      assert retained == Retained(work.snaps, keep, keepLast);
      if retained == {} && addresses != {} {
        return None;
      }
      r := Some(retained);
      if apply {
        var live := Live(work.snaps, retained);
        var orphans := work.chunks.Keys - live;
        RemoveSnaps(addresses - retained, retained, s0, from);
        RemoveChunks(orphans, retained, s0, from);
        Commit();
        PrunedIsMay(s0, disk, retained);
      }
    }

    lemma PartlyPruned(s: Store, s': Store, retained: set<Digest>, gone: set<Digest>)
      requires StoreOk(s) && StoreOk(s') && s'.packed == s.packed && retained <= Active(s).snaps.Keys
      requires Active(s').snaps == (map a | a in Active(s).snaps && a in retained :: Active(s).snaps[a])
      requires Active(s').chunks == Active(s).chunks - gone && gone !! Live(Active(s).snaps, retained)
      ensures MayPrune(s, s', retained)
    {
      hide Live;
      assert Active(s').snaps.Keys == retained;
    }

    lemma PrunedIsMay(s: Store, s': Store, retained: set<Digest>)
      requires StoreOk(s) && StoreOk(s') && s'.packed == s.packed && retained <= Active(s).snaps.Keys
      requires Active(s') == PrunedShelf(Active(s), retained)
      ensures MayPrune(s, s', retained)
    {
      hide Live;
      assert Active(s').snaps.Keys == retained;
    }

    // ----- compact -----

    /** A durable change of the store outside the active shelf, or the switch of the active shelf itself. */
    method SetDisk(s: Store)
      requires Logged() && StoreOk(s)
      modifies this`disk, this`history
      ensures Logged() && disk == s && history == old(history) + [s]
    {
      disk := s;
      history := history + [s];
    }

    /** The loose copies go one by one; the database is authoritative by now. */
    method RemoveLoose(ghost s0: Store, ghost from: nat)
      requires Logged() && disk.packed && StoreOk(s0) && MayCompact(s0, disk) && from <= |history|
      requires forall k :: from <= k < |history| ==> MayCompact(s0, history[k])
      modifies this`disk, this`history
      ensures Logged() && old(history) <= history && disk == old(disk).(loose := Shelf(map[], map[]))
      ensures forall k :: from <= k < |history| ==> MayCompact(s0, history[k])
    {
      hide MayCompact;
      ghost var d0 := disk;
      var chunks := disk.loose.chunks.Keys;
      while chunks != {}
        invariant Logged() && old(history) <= history && disk == d0.(loose := disk.loose) && MayCompact(s0, disk)
        invariant chunks == disk.loose.chunks.Keys && disk.loose.snaps == d0.loose.snaps
        invariant forall k :: from <= k < |history| ==> MayCompact(s0, history[k])
        decreases chunks
      {
        var d :| d in chunks;
        chunks := chunks - {d};
        LooseIsFree(s0, disk, Shelf(disk.loose.chunks - {d}, disk.loose.snaps));
        SetDisk(disk.(loose := Shelf(disk.loose.chunks - {d}, disk.loose.snaps)));
      }
      var snaps := disk.loose.snaps.Keys;
      while snaps != {}
        invariant Logged() && old(history) <= history && disk == d0.(loose := disk.loose) && MayCompact(s0, disk)
        invariant snaps == disk.loose.snaps.Keys && disk.loose.chunks == map[]
        invariant forall k :: from <= k < |history| ==> MayCompact(s0, history[k])
        decreases snaps
      {
        var a :| a in snaps;
        snaps := snaps - {a};
        LooseIsFree(s0, disk, Shelf(map[], disk.loose.snaps - {a}));
        SetDisk(disk.(loose := Shelf(map[], disk.loose.snaps - {a})));
      }
      assert disk.loose.snaps == map[];
    }

    lemma LooseIsFree(s: Store, s': Store, loose: Shelf)
      requires StoreOk(s) && StoreOk(s') && s'.packed && MayCompact(s, s')
      ensures MayCompact(s, s'.(loose := loose))
    {
    }

    /** Packs the loose files into a database, switches over, and removes the loose copies; or only the last of these. */
    method Compact() returns (ok: bool)
      requires Logged()
      modifies this
      ensures Logged() && old(history) <= history
      ensures ok <==> Sound(h, old(disk)) && (old(disk.packed) || forall d :: d in old(disk).loose.chunks ==> h.bytes(old(disk).loose.chunks[d]) == d)
      ensures !ok ==> disk == old(disk) && history == old(history)
      ensures ok ==> disk.packed && disk.loose == Shelf(map[], map[]) && Active(disk) == Active(old(disk))
      ensures forall k :: |old(history)| <= k < |history| ==> MayCompact(old(disk), history[k])
    {
      hide Readable;
      Begin();
      ghost var s0, from := disk, |history|;
      if !(forall a | a in work.snaps.Keys :: Readable(h, work, a)) {
        return false;
      }
      if !disk.packed {
        if !(forall d | d in work.chunks.Keys :: h.bytes(work.chunks[d]) == d) {
          return false;
        }
        SetDisk(disk.(db := Some(Shelf(work.chunks, work.snaps))));
        SetDisk(disk.(packed := true));
      }
      RemoveLoose(s0, from);
      ok := true;
    }

    // ----- restore -----

    /** Reads every chunk of a snapshot, checks every file, and publishes the result as a whole. */
    method Restore(a: Digest) returns (r: Option<seq<Source>>)
      requires Logged()
      modifies this`work
      ensures Logged() && disk == old(disk)
      ensures r == if Readable(h, Active(disk), a) then Files(h, Active(disk), Active(disk).snaps[a].entries) else None
    {
      hide EntrySource;
      Begin();
      if a !in work.snaps || h.manifest(work.snaps[a]) != a {
        return None;
      }
      var entries := work.snaps[a].entries;
      var stage := [];
      assert entries[..0] == [];
      for i := 0 to |entries|
        invariant Open() && disk == old(disk) && work == Active(disk) && Files(h, work, entries[..i]) == Some(stage)
      {
        var e := RestoreEntry(entries[i]);
        assert entries[..i + 1][..i] == entries[..i];
        if e.None? {
          FilesFail(work, entries, i + 1);
          return None;
        }
        stage := stage + [e.value];
      }
      assert entries[..|entries|] == entries;
      r := Some(stage);
    }

    lemma {:induction false} FilesFail(shelf: Shelf, entries: seq<Entry>, n: nat)
      requires n <= |entries| && Files(h, shelf, entries[..n]).None?
      ensures Files(h, shelf, entries).None?
      decreases |entries| - n
    {
      hide EntrySource;
      if n < |entries| {
        assert entries[..n + 1][..n] == entries[..n];
        FilesFail(shelf, entries, n + 1);
      } else {
        assert entries[..n] == entries;
      }
    }

    method RestoreEntry(e: Entry) returns (r: Option<Source>)
      ensures r == EntrySource(h, work, e)
    {
      hide Fetch;
      match e
      case DirEntry(path) => return Some(SourceDir(path));
      case FileEntry(path, chunks, sha, size) =>
        var output := [];
        assert chunks[..0] == [];
        for k := 0 to |chunks|
          invariant FetchAll(h, work, chunks[..k]) == Some(output)
        {
          var data := Fetch(h, work, chunks[k]);
          assert chunks[..k + 1][..k] == chunks[..k];
          if data.None? {
            FetchFail(work, chunks, k + 1);
            return None;
          }
          output := output + data.value;
        }
        assert chunks[..|chunks|] == chunks;
        if |output| != size || h.bytes(output) != sha {
          return None;
        }
        return Some(SourceFile(path, output));
    }

    lemma {:induction false} FetchFail(shelf: Shelf, refs: seq<Ref>, n: nat)
      requires n <= |refs| && FetchAll(h, shelf, refs[..n]).None?
      ensures FetchAll(h, shelf, refs).None?
      decreases |refs| - n
    {
      hide Fetch;
      if n < |refs| {
        assert refs[..n + 1][..n] == refs[..n];
        FetchFail(shelf, refs, n + 1);
      } else {
        assert refs[..n] == refs;
      }
    }

    // ----- repair -----

    ghost predicate Repairing(s0: Store, from: nat)
      reads this
    {
      && Open() && StoreOk(s0) && disk.packed == s0.packed && from <= |history| && (disk.packed ==> disk == s0 && |history| == from)
      && MayRepairShelf(h, Active(s0), work)
      && forall k :: from <= k < |history| ==> MayRepair(h, s0, history[k])
    }

    lemma RepairingShape(s0: Store, from: nat)
      requires Repairing(s0, from)
      ensures Open() && StoreOk(s0) && disk.packed == s0.packed && MayRepairShelf(h, Active(s0), work)
      ensures disk.packed ==> disk == s0 && |history| == from
      ensures forall k :: from <= k < |history| ==> MayRepair(h, s0, history[k])
    {
    }

    /** A better shelf becomes the work shelf. */
    method Improve(w: Shelf, ghost s0: Store, ghost from: nat)
      requires Repairing(s0, from) && MayRepairShelf(h, Active(s0), w)
      modifies this`work, this`disk, this`history
      ensures Repairing(s0, from) && work == w && old(history) <= history
    {
      hide MayRepairShelf, MayRepair;
      if !disk.packed {
        ShelfIsRepair(h, s0, disk.(loose := w));
      }
      SetWork(w);
    }

    /** A chunk that cannot be fetched is replaced by the donor's verified one. */
    method FixChunk(ref: Ref, data: seq<byte>, ghost s0: Store, ghost from: nat)
      requires Repairing(s0, from) && CollisionFree(h) && |data| == ref.size && h.bytes(data) == ref.digest
      modifies this`work, this`disk, this`history
      ensures Repairing(s0, from) && old(history) <= history && work.snaps == old(work.snaps)
      ensures Fetch(h, work, ref) == Some(data) && KeepsValid(h, old(work), work)
    {
      hide MayRepairShelf, MayRepair, Repository.Repairing;
      RepairingShape(s0, from);
      if Fetch(h, work, ref).None? {
        var w := work.(chunks := work.chunks[ref.digest := data]);
        ReplacedChunk(h, work, w, ref, data);
        RepairedFurther(h, Active(s0), work, w);
        Improve(w, s0, from);
      } else {
        SameData(h, work, ref, data);
      }
    }

    /** All chunks of one file. */
    method FixRefs(refs: seq<Ref>, source: Shelf, ghost s0: Store, ghost from: nat)
      requires Repairing(s0, from) && CollisionFree(h) && FetchAll(h, source, refs).Some?
      modifies this`work, this`disk, this`history
      ensures Repairing(s0, from) && old(history) <= history && work.snaps == old(work.snaps)
      ensures FetchAll(h, work, refs) == FetchAll(h, source, refs) && KeepsValid(h, old(work), work)
    {
      hide Repository.Repairing, Fetch;
      ghost var w0 := work;
      NoneFetched(work, source);
      assert refs[..0] == [];
      ValidSelf(h, work);
      for k := 0 to |refs|
        invariant Repairing(s0, from) && old(history) <= history && work.snaps == w0.snaps && KeepsValid(h, w0, work)
        invariant FetchAll(h, work, refs[..k]) == FetchAll(h, source, refs[..k])
      {
        ghost var before := work;
        FetchedParts(h, source, refs, k);
        FixChunk(refs[k], Fetched(h, source, refs[k]), s0, from);
        ValidRefs(h, before, work, refs[..k]);
        assert refs[..k + 1] == refs[..k] + [refs[k]];
        AppendRef(h, work, refs[..k], refs[k]);
        AppendRef(h, source, refs[..k], refs[k]);
      }
      assert refs[..|refs|] == refs;
    }

    lemma NoneFetched(x: Shelf, y: Shelf)
      ensures FetchAll(h, x, []) == FetchAll(h, y, []) && Files(h, x, []) == Files(h, y, [])
    {
    }

    /** All files of one snapshot. */
    method FixEntries(entries: seq<Entry>, source: Shelf, ghost s0: Store, ghost from: nat)
      requires Repairing(s0, from) && CollisionFree(h) && Files(h, source, entries).Some?
      modifies this`work, this`disk, this`history
      ensures Repairing(s0, from) && old(history) <= history && work.snaps == old(work.snaps)
      ensures Files(h, work, entries) == Files(h, source, entries) && KeepsValid(h, old(work), work)
    {
      hide Repository.Repairing, Fetch, FetchAll;
      ghost var w0 := work;
      NoneFetched(work, source);
      assert entries[..0] == [];
      ValidSelf(h, work);
      for i := 0 to |entries|
        invariant Repairing(s0, from) && old(history) <= history && work.snaps == w0.snaps && KeepsValid(h, w0, work)
        invariant Files(h, work, entries[..i]) == Files(h, source, entries[..i])
      {
        ghost var before := work;
        FilesParts(h, source, entries, i);
        if entries[i].FileEntry? {
          FixRefs(entries[i].chunks, source, s0, from);
        } else {
          ValidSelf(h, work);
        }
        ValidFiles(h, before, work, entries[..i]);
        assert entries[..i + 1] == entries[..i] + [entries[i]];
        AppendEntry(h, work, entries[..i], entries[i]);
        AppendEntry(h, source, entries[..i], entries[i]);
      }
      assert entries[..|entries|] == entries;
    }

    /** The manifest is put back if it is missing or differs. */
    method FixManifest(a: Digest, m: Manifest, ghost s0: Store, ghost from: nat)
      requires Repairing(s0, from) && CollisionFree(h) && h.manifest(m) == a && Files(h, work, m.entries).Some?
      modifies this`work, this`disk, this`history
      ensures Repairing(s0, from) && old(history) <= history
      ensures Readable(h, work, a) && work.snaps[a] == m && KeepsValid(h, old(work), work) && work.chunks == old(work.chunks)
      ensures forall b :: b in old(work.snaps) && h.manifest(old(work.snaps)[b]) == b ==> b in work.snaps && work.snaps[b] == old(work.snaps)[b]
      ensures OthersSame(old(work).snaps, work.snaps, [a])
    {
      hide MayRepair, Repository.Repairing, Files;
      RepairingShape(s0, from);
      if a !in work.snaps || work.snaps[a] != m {
        var w := work.(snaps := work.snaps[a := m]);
        NewSnapReadable(work, w, m);
        ReplacedSnap(h, Active(s0), work, w, a, m);
        Improve(w, s0, from);
      }
    }

    /** Repairs the selected snapshots from a donor, all of them verified first. */
    method Repair(donor: Repository, addresses: seq<Digest>) returns (ok: bool)
      requires Logged() && donor != this && donor.Logged() && donor.h == h && CollisionFree(h)
      modifies this
      ensures Logged() && old(history) <= history
      ensures ok <==> forall i :: 0 <= i < |addresses| ==> Readable(h, Active(donor.disk), addresses[i])
      ensures !ok ==> disk == old(disk) && history == old(history)
      ensures forall k :: |old(history)| <= k < |history| ==> MayRepair(h, old(disk), history[k])
      ensures ok ==> forall i :: 0 <= i < |addresses| ==> Restored(h, Active(donor.disk), Active(disk), addresses[i])
      ensures OthersSame(Active(old(disk)).snaps, Active(disk).snaps, addresses)
    {
      hide Readable, Repository.Repairing, Files, Fetch, MayRepair, MayRepairShelf, KeepsValid, Restored, OthersSame;
      OthersSelf(Active(disk).snaps, addresses);
      var source := Active(donor.disk);
      if !(forall i | 0 <= i < |addresses| :: Readable(h, source, addresses[i])) {
        return false;
      }
      Begin();
      ghost var s0, from := disk, |history|;
      StartRepair(s0, from);
      for i := 0 to |addresses|
        invariant Repairing(s0, from) && old(history) <= history
        invariant forall j :: 0 <= j < i ==> Restored(h, source, work, addresses[j])
        invariant OthersSame(Active(s0).snaps, work.snaps, addresses)
      {
        ghost var before := work.snaps;
        RepairOne(addresses[i], source, addresses[..i], s0, from);
        OthersStillSame(Active(s0).snaps, before, work.snaps, addresses, i);
      }
      RepairingShape(s0, from);
      Commit();
      ShelfIsRepair(h, s0, disk);
      ok := true;
    }

    lemma StartRepair(s0: Store, from: nat)
      requires Open() && disk == s0 && |history| == from && work == Active(s0)
      ensures Repairing(s0, from)
    {
      hide Readable;
    }

    method RepairOne(a: Digest, source: Shelf, ghost before: seq<Digest>, ghost s0: Store, ghost from: nat)
      requires Repairing(s0, from) && CollisionFree(h) && Readable(h, source, a)
      requires forall j :: 0 <= j < |before| ==> Restored(h, source, work, before[j])
      modifies this`work, this`disk, this`history
      ensures Repairing(s0, from) && old(history) <= history && Restored(h, source, work, a)
      ensures OthersSame(old(work).snaps, work.snaps, [a])
      ensures forall j :: 0 <= j < |before| ==> Restored(h, source, work, before[j])
    {
      hide Repository.Repairing, Files, Fetch, MayRepair, MayRepairShelf, KeepsValid;
      var m := source.snaps[a];
      ghost var w0 := work;
      FixEntries(m.entries, source, s0, from);
      ghost var w1 := work;
      FixManifest(a, m, s0, from);
      SameChunks(w1, work, m.entries);
      forall j | 0 <= j < |before| ensures Restored(h, source, work, before[j]) {
        StillRestored(h, source, w0, w1, before[j]);
        StillRestored(h, source, w1, work, before[j]);
      }
    }
  }

  // ----- repairing a shelf -----

  /** Chunks with the right digest stay as they are. */
  ghost predicate KeepsValid(h: Hashes, x: Shelf, y: Shelf)
  {
    forall d :: d in x.chunks && h.bytes(x.chunks[d]) == d ==> d in y.chunks && y.chunks[d] == x.chunks[d]
  }

  ghost predicate MayRepairShelf(h: Hashes, x: Shelf, y: Shelf)
  {
    && KeepsValid(h, x, y)
    && (forall a :: a in x.snaps && h.manifest(x.snaps[a]) == a ==> a in y.snaps && y.snaps[a] == x.snaps[a])
    && (forall a :: a in y.snaps && a !in x.snaps ==> Readable(h, y, a))
  }

  /** Only snapshots of the list are added or changed, and none goes. */
  ghost predicate OthersSame(x: map<Digest, Manifest>, y: map<Digest, Manifest>, addresses: seq<Digest>)
  {
    x.Keys <= y.Keys && forall b :: b in y && b !in addresses ==> b in x && y[b] == x[b]
  }

  lemma OthersSelf(x: map<Digest, Manifest>, addresses: seq<Digest>)
    ensures OthersSame(x, x, addresses)
  {
  }

  lemma OthersStillSame(x: map<Digest, Manifest>, y: map<Digest, Manifest>, z: map<Digest, Manifest>, addresses: seq<Digest>, i: nat)
    requires i < |addresses| && OthersSame(x, y, addresses) && OthersSame(y, z, [addresses[i]])
    ensures OthersSame(x, z, addresses)
  {
  }

  lemma ShelfIsRepair(h: Hashes, s: Store, s': Store)
    requires StoreOk(s) && StoreOk(s') && s'.packed == s.packed && MayRepairShelf(h, Active(s), Active(s'))
    ensures MayRepair(h, s, s')
  {
    hide Readable;
  }

  lemma ValidSelf(h: Hashes, x: Shelf)
    ensures KeepsValid(h, x, x)
  {
  }

  lemma ValidFiles(h: Hashes, x: Shelf, y: Shelf, entries: seq<Entry>)
    requires KeepsValid(h, x, y)
    ensures Files(h, x, entries).Some? ==> Files(h, y, entries) == Files(h, x, entries)
  {
    hide Files, Fetch;
    MoreChunks(h, x, y, ChunkRefs(entries));
    if Files(h, x, entries).Some? {
      FilesKept(h, x, y, entries);
    }
  }

  lemma ValidRefs(h: Hashes, x: Shelf, y: Shelf, refs: seq<Ref>)
    requires KeepsValid(h, x, y)
    ensures FetchAll(h, x, refs).Some? ==> FetchAll(h, y, refs) == FetchAll(h, x, refs)
  {
    hide FetchAll, Fetch;
    MoreChunks(h, x, y, set r | r in refs);
    if FetchAll(h, x, refs).Some? {
      FetchAllKept(h, x, y, refs);
    }
  }

  lemma ReplacedChunk(h: Hashes, x: Shelf, y: Shelf, ref: Ref, data: seq<byte>)
    requires CollisionFree(h) && Fetch(h, x, ref).None? && |data| == ref.size && h.bytes(data) == ref.digest
    requires y == x.(chunks := x.chunks[ref.digest := data])
    ensures KeepsValid(h, x, y) && Fetch(h, y, ref) == Some(data)
  {
  }

  lemma SameData(h: Hashes, x: Shelf, ref: Ref, data: seq<byte>)
    requires CollisionFree(h) && Fetch(h, x, ref).Some? && h.bytes(data) == ref.digest
    ensures Fetch(h, x, ref) == Some(data) && KeepsValid(h, x, x)
  {
  }

  lemma RepairedFurther(h: Hashes, x: Shelf, y: Shelf, z: Shelf)
    requires MayRepairShelf(h, x, y) && KeepsValid(h, y, z) && z.snaps == y.snaps
    ensures MayRepairShelf(h, x, z)
  {
    hide Files;
    forall a | a in z.snaps && a !in x.snaps ensures Readable(h, z, a) {
      ValidFiles(h, y, z, y.snaps[a].entries);
    }
  }

  lemma ReplacedSnap(h: Hashes, x: Shelf, y: Shelf, z: Shelf, a: Digest, m: Manifest)
    requires CollisionFree(h) && MayRepairShelf(h, x, y) && h.manifest(m) == a && z == y.(snaps := y.snaps[a := m]) && Readable(h, z, a)
    ensures MayRepairShelf(h, x, z) && KeepsValid(h, y, z)
    ensures forall b :: b in y.snaps && h.manifest(y.snaps[b]) == b ==> b in z.snaps && z.snaps[b] == y.snaps[b]
  {
    hide Files;
    forall b | b in z.snaps && b !in x.snaps ensures Readable(h, z, b) {
      ValidFiles(h, y, z, z.snaps[b].entries);
    }
  }

  function Fetched(h: Hashes, x: Shelf, ref: Ref): seq<byte>
    requires Fetch(h, x, ref).Some?
  {
    Fetch(h, x, ref).value
  }

  lemma {:induction false} FetchedParts(h: Hashes, x: Shelf, refs: seq<Ref>, k: nat)
    requires FetchAll(h, x, refs).Some? && k < |refs|
    ensures FetchAll(h, x, refs[..k]).Some? && Fetch(h, x, refs[k]).Some?
    ensures |Fetched(h, x, refs[k])| == refs[k].size && h.bytes(Fetched(h, x, refs[k])) == refs[k].digest
  {
    var n := |refs| - 1;
    if k < n {
      assert refs[..n][..k] == refs[..k];
      FetchedParts(h, x, refs[..n], k);
    }
  }

  lemma {:induction false} FilesParts(h: Hashes, x: Shelf, entries: seq<Entry>, i: nat)
    requires Files(h, x, entries).Some? && i < |entries|
    ensures Files(h, x, entries[..i]).Some? && EntrySource(h, x, entries[i]).Some?
    ensures entries[i].FileEntry? ==> FetchAll(h, x, entries[i].chunks).Some?
  {
    hide FetchAll;
    var n := |entries| - 1;
    if i < n {
      assert entries[..n][..i] == entries[..i];
      FilesParts(h, x, entries[..n], i);
    }
  }

  /** A snapshot is there as the donor has it, with the same files. */
  ghost predicate Restored(h: Hashes, source: Shelf, x: Shelf, a: Digest)
  {
    && Readable(h, source, a) && Readable(h, x, a) && x.snaps[a] == source.snaps[a]
    && Files(h, x, x.snaps[a].entries) == Files(h, source, source.snaps[a].entries)
  }

  lemma StillRestored(h: Hashes, source: Shelf, x: Shelf, y: Shelf, a: Digest)
    requires Restored(h, source, x, a) && KeepsValid(h, x, y)
    requires forall b :: b in x.snaps && h.manifest(x.snaps[b]) == b ==> b in y.snaps && y.snaps[b] == x.snaps[b]
    ensures Restored(h, source, y, a)
  {
    hide Files;
    ValidFiles(h, x, y, x.snaps[a].entries);
  }

  // ----- retention -----

  /** Snapshots in the order of their creation times, then of their addresses. */
  predicate Newer(snaps: map<Digest, Manifest>, a: Digest, b: Digest)
    requires a in snaps && b in snaps
  {
    snaps[a].created > snaps[b].created || (snaps[a].created == snaps[b].created && a > b)
  }

  ghost predicate Known(snaps: map<Digest, Manifest>, addrs: set<Digest>)
  {
    forall a :: a in addrs ==> a in snaps
  }

  /** The newest of a set. */
  lemma {:induction false} NewestExists(snaps: map<Digest, Manifest>, addrs: set<Digest>)
    requires Known(snaps, addrs) && addrs != {}
    ensures exists m :: IsNewest(snaps, addrs, m)
    decreases addrs
  {
    var x :| x in addrs;
    if addrs == {x} {
      assert IsNewest(snaps, addrs, x);
    } else {
      var rest := addrs - {x};
      assert addrs == rest + {x};
      NewestExists(snaps, rest);
      var m :| IsNewest(snaps, rest, m);
      if Newer(snaps, x, m) {
        forall b | b in addrs && b != x ensures Newer(snaps, x, b) {
          assert b in rest;
          assert b == m || Newer(snaps, m, b);
        }
        assert IsNewest(snaps, addrs, x);
      } else {
        assert IsNewest(snaps, addrs, m);
      }
    }
  }

  ghost predicate IsNewest(snaps: map<Digest, Manifest>, addrs: set<Digest>, m: Digest)
  {
    m in addrs && Known(snaps, addrs) && forall b :: b in addrs && b != m ==> Newer(snaps, m, b)
  }

  /** The k newest snapshots, or all if there are fewer. */
  ghost function Latest(snaps: map<Digest, Manifest>, addrs: set<Digest>, k: nat): (l: set<Digest>)
    requires Known(snaps, addrs)
    ensures l <= addrs
    decreases k
  {
    if k == 0 || addrs == {} then {}
    else
      NewestExists(snaps, addrs);
      var m :| IsNewest(snaps, addrs, m);
      {m} + Latest(snaps, addrs - {m}, k - 1)
  }

  lemma OneNewest(snaps: map<Digest, Manifest>, addrs: set<Digest>, m: Digest, k: nat)
    requires IsNewest(snaps, addrs, m) && k > 0
    ensures Latest(snaps, addrs, k) == {m} + Latest(snaps, addrs - {m}, k - 1)
  {
    NewestExists(snaps, addrs);
    var n :| IsNewest(snaps, addrs, n) && Latest(snaps, addrs, k) == {n} + Latest(snaps, addrs - {n}, k - 1);
    assert n == m;
  }

  /** Removing snapshots that are not among the k newest leaves the same k newest. */
  lemma {:induction false} LatestStable(snaps: map<Digest, Manifest>, snaps': map<Digest, Manifest>, addrs: set<Digest>, addrs': set<Digest>, k: nat)
    requires Known(snaps, addrs) && Known(snaps', addrs') && addrs' <= addrs && Latest(snaps, addrs, k) <= addrs'
    requires forall a :: a in addrs' ==> snaps'[a] == snaps[a]
    ensures Latest(snaps', addrs', k) == Latest(snaps, addrs, k)
    decreases k
  {
    if k > 0 && addrs != {} {
      NewestExists(snaps, addrs);
      var m :| IsNewest(snaps, addrs, m);
      OneNewest(snaps, addrs, m, k);
      assert IsNewest(snaps', addrs', m);
      OneNewest(snaps', addrs', m, k);
      LatestStable(snaps, snaps', addrs - {m}, addrs' - {m}, k - 1);
    }
  }

  ghost predicate InOrder(snaps: map<Digest, Manifest>, s: seq<Digest>)
  {
    && (forall i :: 0 <= i < |s| ==> s[i] in snaps)
    && forall i, j :: 0 <= i < j < |s| ==> Newer(snaps, s[j], s[i])
  }

  ghost function Elements(s: seq<Digest>): set<Digest> { set a | a in s }

  lemma LastIsNewest(snaps: map<Digest, Manifest>, s: seq<Digest>)
    requires InOrder(snaps, s) && s != []
    ensures IsNewest(snaps, Elements(s), s[|s| - 1])
  {
    forall b | b in Elements(s) && b != s[|s| - 1] ensures Newer(snaps, s[|s| - 1], b) {
      var i :| 0 <= i < |s| && s[i] == b;
    }
  }

  lemma DropLast(snaps: map<Digest, Manifest>, s: seq<Digest>)
    requires InOrder(snaps, s) && s != []
    ensures InOrder(snaps, s[..|s| - 1]) && Elements(s) - {s[|s| - 1]} == Elements(s[..|s| - 1])
  {
    var n := |s| - 1;
    forall a | a in Elements(s) - {s[n]} ensures a in Elements(s[..n]) {
      var i :| 0 <= i < |s| && s[i] == a;
      assert s[..n][i] == a;
    }
    forall a | a in Elements(s[..n]) ensures a in Elements(s) - {s[n]} {
      var i :| 0 <= i < n && s[..n][i] == a;
      assert Newer(snaps, s[n], s[i]);
    }
  }

  lemma TailPlus(s: seq<Digest>, from: nat)
    requires from < |s|
    ensures Elements(s[from..]) == {s[|s| - 1]} + Elements(s[..|s| - 1][from..])
  {
    assert s[from..] == s[..|s| - 1][from..] + [s[|s| - 1]];
  }

  function TailFrom(n: nat, k: nat): (i: nat)
    ensures i <= n
  {
    if n <= k then 0 else n - k
  }

  /** The last k entries of a list. */
  ghost function Tail(s: seq<Digest>, k: nat): set<Digest> { Elements(s[TailFrom(|s|, k)..]) }

  lemma OrderKnown(snaps: map<Digest, Manifest>, s: seq<Digest>)
    requires InOrder(snaps, s)
    ensures Known(snaps, Elements(s))
  {
    hide Newer;
  }

  lemma NoneLatest(snaps: map<Digest, Manifest>, s: seq<Digest>, k: nat)
    requires Known(snaps, Elements(s)) && (k == 0 || s == [])
    ensures Tail(s, k) == Latest(snaps, Elements(s), k)
  {
    assert s[|s|..] == [];
  }

  /** The last k of a sorted list are the k newest. */
  lemma {:induction false} LastAreLatest(snaps: map<Digest, Manifest>, s: seq<Digest>, k: nat)
    requires InOrder(snaps, s)
    ensures Known(snaps, Elements(s))
    ensures Tail(s, k) == Latest(snaps, Elements(s), k)
    decreases k
  {
    hide *;
    OrderKnown(snaps, s);
    if k == 0 || s == [] {
      NoneLatest(snaps, s, k);
    } else {
      LastIsNewest(snaps, s);
      DropLast(snaps, s);
      var front := s[..|s| - 1];
      LastAreLatest(snaps, front, k - 1);
      LastStep(snaps, Elements(s), Elements(front), s[|s| - 1], Tail(front, k - 1), k);
      TailStep(s, k);
    }
  }

  lemma LastStep(snaps: map<Digest, Manifest>, all: set<Digest>, rest: set<Digest>, m: Digest, tail: set<Digest>, k: nat)
    requires IsNewest(snaps, all, m) && k > 0 && Known(snaps, rest) && all - {m} == rest && tail == Latest(snaps, rest, k - 1)
    ensures Known(snaps, all) && {m} + tail == Latest(snaps, all, k)
  {
    hide Latest, Newer;
    OneNewest(snaps, all, m, k);
  }

  lemma TailStep(s: seq<Digest>, k: nat)
    requires s != [] && k > 0
    ensures Tail(s, k) == {s[|s| - 1]} + Tail(s[..|s| - 1], k - 1)
  {
    hide Elements;
    TailPlus(s, TailFrom(|s|, k));
  }

  /** The snapshots newer than a given one. */
  ghost function NewerOnes(snaps: map<Digest, Manifest>, addrs: set<Digest>, a: Digest): set<Digest>
    requires Known(snaps, addrs) && a in snaps
  {
    set b | b in addrs && Newer(snaps, b, a)
  }

  /** A snapshot is among the k newest exactly when fewer than k are newer. */
  lemma {:induction false} LatestIff(snaps: map<Digest, Manifest>, addrs: set<Digest>, k: nat, a: Digest)
    requires Known(snaps, addrs) && a in addrs
    ensures a in Latest(snaps, addrs, k) <==> |NewerOnes(snaps, addrs, a)| < k
    decreases k
  {
    if k > 0 {
      NewestExists(snaps, addrs);
      var m :| IsNewest(snaps, addrs, m);
      OneNewest(snaps, addrs, m, k);
      if a == m {
        assert NewerOnes(snaps, addrs, a) == {};
      } else {
        LatestIff(snaps, addrs - {m}, k - 1, a);
        assert NewerOnes(snaps, addrs, a) == NewerOnes(snaps, addrs - {m}, a) + {m};
      }
    }
  }

  /** What a prune with this retention keeps: the named snapshots and the newest ones. */
  ghost function Retained(snaps: map<Digest, Manifest>, keep: set<Digest>, keepLast: nat): set<Digest>
  {
    keep + Latest(snaps, snaps.Keys, keepLast)
  }

  /** The shelf after a prune has run to its end. */
  function PrunedShelf(x: Shelf, retained: set<Digest>): Shelf
  {
    var live := Live(x.snaps, retained);
    Shelf(map d | d in x.chunks && d in live :: x.chunks[d], map a | a in x.snaps && a in retained :: x.snaps[a])
  }

  lemma LiveOf(x: map<Digest, Manifest>, y: map<Digest, Manifest>, kept: set<Digest>)
    requires forall a :: a in kept && a in x ==> a in y && y[a] == x[a]
    requires forall a :: a in kept && a in y ==> a in x
    ensures Live(x, kept) == Live(y, kept)
  {
    hide ChunkRefs;
  }

  /** Rerunning an interrupted prune with the same retention plans the same result. */
  lemma PruneResumes(s: Store, s': Store, keep: set<Digest>, keepLast: nat)
    requires StoreOk(s) && MayPrune(s, s', Retained(Active(s).snaps, keep, keepLast))
    ensures Retained(Active(s').snaps, keep, keepLast) == Retained(Active(s).snaps, keep, keepLast)
    ensures PrunedShelf(Active(s'), Retained(Active(s').snaps, keep, keepLast))
            == PrunedShelf(Active(s), Retained(Active(s).snaps, keep, keepLast))
  {
    hide Live;
    var x, y := Active(s), Active(s');
    LatestStable(x.snaps, y.snaps, x.snaps.Keys, y.snaps.Keys, keepLast);
    var retained := Retained(x.snaps, keep, keepLast);
    LiveOf(x.snaps, y.snaps, retained);
    var live := Live(x.snaps, retained);
    assert forall d :: d in x.chunks && d in live <==> d in y.chunks && d in live;
    assert PrunedShelf(y, retained).chunks == PrunedShelf(x, retained).chunks;
    assert PrunedShelf(y, retained).snaps == PrunedShelf(x, retained).snaps;
  }

  /** MayCreate on the shelf alone. */
  ghost predicate MayCreateShelf(h: Hashes, x: Shelf, y: Shelf)
  {
    && (forall d :: d in x.chunks ==> d in y.chunks && y.chunks[d] == x.chunks[d])
    && (forall a :: a in x.snaps ==> a in y.snaps && y.snaps[a] == x.snaps[a])
    && (forall a :: a in y.snaps && a !in x.snaps ==> Readable(h, y, a))
  }

  lemma ShelfIsCreate(h: Hashes, s: Store, s': Store)
    requires StoreOk(s) && StoreOk(s') && s'.packed == s.packed && MayCreateShelf(h, Active(s), Active(s'))
    ensures MayCreate(h, s, s')
  {
  }
}
