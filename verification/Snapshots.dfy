/** The snapshot repository as data: content-addressed chunks and manifests, and what each operation may do to them. */
module Snapshots {
  import opened Options
  import opened BitStrings

  type Digest = nat

  datatype Ref = Ref(digest: Digest, size: nat)

  datatype Entry = DirEntry(path: string) | FileEntry(path: string, chunks: seq<Ref>, sha: Digest, size: nat)

  datatype Manifest = Manifest(created: int, name: string, entries: seq<Entry>)

  /** What a snapshot is taken of, and what restoring it gives. */
  datatype Source = SourceDir(path: string) | SourceFile(path: string, data: seq<byte>)

  /** SHA-256 of bytes and of an encoded manifest, not interpreted. */
  datatype Hashes = Hashes(bytes: seq<byte> -> Digest, manifest: Manifest -> Digest)

  /** A set of stored objects: loose files, or the tables of the packed database. */
  datatype Shelf = Shelf(chunks: map<Digest, seq<byte>>, snaps: map<Digest, Manifest>)

  /** The repository on disk: the format in its configuration, the loose files, and the database file if there is one. */
  datatype Store = Store(packed: bool, loose: Shelf, db: Option<Shelf>)

  predicate StoreOk(s: Store) { s.packed ==> s.db.Some? }

  function Active(s: Store): Shelf
    requires StoreOk(s)
  {
    if s.packed then s.db.value else s.loose
  }

  // ----- reading -----

  /** A chunk is used only if its size and digest are right. */
  function Fetch(h: Hashes, shelf: Shelf, ref: Ref): Option<seq<byte>>
  {
    if ref.digest in shelf.chunks && |shelf.chunks[ref.digest]| == ref.size && h.bytes(shelf.chunks[ref.digest]) == ref.digest
    then Some(shelf.chunks[ref.digest]) else None
  }

  function FetchAll(h: Hashes, shelf: Shelf, refs: seq<Ref>): Option<seq<byte>>
  {
    if refs == [] then Some([])
    else
      var front := FetchAll(h, shelf, refs[..|refs| - 1]);
      var last := Fetch(h, shelf, refs[|refs| - 1]);
      if front.Some? && last.Some? then Some(front.value + last.value) else None
  }

  function EntrySource(h: Hashes, shelf: Shelf, e: Entry): Option<Source>
  {
    match e
    case DirEntry(path) => Some(SourceDir(path))
    case FileEntry(path, refs, sha, size) =>
      var data := FetchAll(h, shelf, refs);
      if data.Some? && |data.value| == size && h.bytes(data.value) == sha then Some(SourceFile(path, data.value)) else None
  }

  /** The files and directories of a snapshot, if every chunk and every whole-file digest is right. */
  function Files(h: Hashes, shelf: Shelf, entries: seq<Entry>): Option<seq<Source>>
  {
    if entries == [] then Some([])
    else
      var front := Files(h, shelf, entries[..|entries| - 1]);
      var last := EntrySource(h, shelf, entries[|entries| - 1]);
      if front.Some? && last.Some? then Some(front.value + [last.value]) else None
  }

  /** A snapshot is visible with its own address and can be restored. */
  predicate Readable(h: Hashes, shelf: Shelf, a: Digest)
  {
    a in shelf.snaps && h.manifest(shelf.snaps[a]) == a && Files(h, shelf, shelf.snaps[a].entries).Some?
  }

  /** Every visible snapshot can be restored: each manifest has all its chunks in the active store. */
  ghost predicate Sound(h: Hashes, s: Store)
  {
    StoreOk(s) && forall a :: a in Active(s).snaps ==> Readable(h, Active(s), a)
  }

  // ----- what keeps a snapshot restorable -----

  function ChunkRefs(entries: seq<Entry>): set<Ref>
  {
    if entries == [] then {}
    else ChunkRefs(entries[..|entries| - 1]) + EntryRefs(entries[|entries| - 1])
  }

  function EntryRefs(e: Entry): set<Ref>
  {
    match e
    case DirEntry(_) => {}
    case FileEntry(_, refs, _, _) => set r | r in refs
  }

  /** Every reference that could be fetched is fetched the same. */
  ghost predicate SameFetch(h: Hashes, x: Shelf, y: Shelf, refs: set<Ref>)
  {
    forall r :: r in refs && Fetch(h, x, r).Some? ==> Fetch(h, y, r) == Fetch(h, x, r)
  }

  lemma {:induction false} FetchAllKept(h: Hashes, x: Shelf, y: Shelf, refs: seq<Ref>)
    requires FetchAll(h, x, refs).Some? && SameFetch(h, x, y, set r | r in refs)
    ensures FetchAll(h, y, refs) == FetchAll(h, x, refs)
  {
    hide Fetch;
    if refs != [] {
      var n := |refs| - 1;
      assert refs[n] in refs;
      assert forall r :: r in refs[..n] ==> r in refs;
      FetchAllKept(h, x, y, refs[..n]);
    }
  }

  /** Keeping a snapshot's chunks keeps the files it restores to. */
  lemma {:induction false} FilesKept(h: Hashes, x: Shelf, y: Shelf, entries: seq<Entry>)
    requires Files(h, x, entries).Some? && SameFetch(h, x, y, ChunkRefs(entries))
    ensures Files(h, y, entries) == Files(h, x, entries)
  {
    hide Fetch, FetchAll;
    if entries != [] {
      var n := |entries| - 1;
      FilesKept(h, x, y, entries[..n]);
      if entries[n].FileEntry? {
        FetchAllKept(h, x, y, entries[n].chunks);
      }
    }
  }

  /** The digests a set of snapshots needs. */
  function Live(snaps: map<Digest, Manifest>, kept: set<Digest>): set<Digest>
  {
    set a, r | a in kept && a in snaps && r in ChunkRefs(snaps[a].entries) :: r.digest
  }

  // ----- what each operation may leave on disk, whole or interrupted -----

  /** Creating: nothing that was there changes, and a new visible snapshot is complete. */
  ghost predicate MayCreate(h: Hashes, s: Store, s': Store)
  {
    && StoreOk(s) && StoreOk(s') && s'.packed == s.packed
    && (forall d :: d in Active(s).chunks ==> d in Active(s').chunks && Active(s').chunks[d] == Active(s).chunks[d])
    && (forall a :: a in Active(s).snaps ==> a in Active(s').snaps && Active(s').snaps[a] == Active(s).snaps[a])
    && (forall a :: a in Active(s').snaps && a !in Active(s).snaps ==> Readable(h, Active(s'), a))
  }

  /** Pruning: only snapshots outside the retained set go, and chunks go only after all of those. */
  ghost predicate MayPrune(s: Store, s': Store, retained: set<Digest>)
  {
    && StoreOk(s) && StoreOk(s') && s'.packed == s.packed && retained <= Active(s).snaps.Keys
    && (forall a :: a in Active(s').snaps ==> a in Active(s).snaps && Active(s').snaps[a] == Active(s).snaps[a])
    && retained <= Active(s').snaps.Keys
    && (forall d :: d in Active(s').chunks ==> d in Active(s).chunks && Active(s').chunks[d] == Active(s).chunks[d])
    && (forall d :: d in Active(s).chunks && d in Live(Active(s).snaps, retained) ==> d in Active(s').chunks)
    && (Active(s').chunks != Active(s).chunks ==> Active(s').snaps.Keys == retained)
  }

  /** Compacting: the active store, wherever it is, keeps its snapshots and its chunks. */
  ghost predicate MayCompact(s: Store, s': Store)
  {
    && StoreOk(s) && StoreOk(s')
    && Active(s').snaps == Active(s).snaps
    && (forall d :: d in Active(s).chunks ==> d in Active(s').chunks && Active(s').chunks[d] == Active(s).chunks[d])
  }

  /** Repairing: what could be fetched still is, and no visible snapshot with a right address changes. */
  ghost predicate MayRepair(h: Hashes, s: Store, s': Store)
  {
    && StoreOk(s) && StoreOk(s') && s'.packed == s.packed
    && (forall d :: d in Active(s).chunks && h.bytes(Active(s).chunks[d]) == d ==>
          d in Active(s').chunks && Active(s').chunks[d] == Active(s).chunks[d])
    && (forall a :: a in Active(s).snaps && h.manifest(Active(s).snaps[a]) == a ==>
          a in Active(s').snaps && Active(s').snaps[a] == Active(s).snaps[a])
    && (forall a :: a in Active(s').snaps && a !in Active(s).snaps ==> Readable(h, Active(s'), a))
  }

  lemma MoreChunks(h: Hashes, x: Shelf, y: Shelf, refs: set<Ref>)
    requires forall d :: d in x.chunks && h.bytes(x.chunks[d]) == d ==> d in y.chunks && y.chunks[d] == x.chunks[d]
    ensures SameFetch(h, x, y, refs)
  {
  }

  /** A readable snapshot stays readable, with the same files, as long as it stays visible. */
  ghost predicate Keeps(h: Hashes, x: Shelf, y: Shelf, a: Digest)
  {
    Readable(h, x, a) && a in y.snaps ==>
      Readable(h, y, a) && y.snaps[a] == x.snaps[a] && Files(h, y, y.snaps[a].entries) == Files(h, x, x.snaps[a].entries)
  }

  lemma CreateKeeps(h: Hashes, s: Store, s': Store, a: Digest)
    requires MayCreate(h, s, s')
    ensures Keeps(h, Active(s), Active(s'), a) && (a in Active(s).snaps ==> a in Active(s').snaps)
  {
    hide Files, Fetch;
    if Readable(h, Active(s), a) {
      var m := Active(s).snaps[a];
      MoreChunks(h, Active(s), Active(s'), ChunkRefs(m.entries));
      FilesKept(h, Active(s), Active(s'), m.entries);
    }
  }

  lemma CompactKeeps(h: Hashes, s: Store, s': Store, a: Digest)
    requires MayCompact(s, s')
    ensures Keeps(h, Active(s), Active(s'), a) && (a in Active(s).snaps <==> a in Active(s').snaps)
  {
    hide Files, Fetch;
    if Readable(h, Active(s), a) {
      var m := Active(s).snaps[a];
      MoreChunks(h, Active(s), Active(s'), ChunkRefs(m.entries));
      FilesKept(h, Active(s), Active(s'), m.entries);
    }
  }

  lemma RepairKeeps(h: Hashes, s: Store, s': Store, a: Digest)
    requires MayRepair(h, s, s')
    ensures Keeps(h, Active(s), Active(s'), a) && (Readable(h, Active(s), a) ==> a in Active(s').snaps)
  {
    hide Files, Fetch;
    if Readable(h, Active(s), a) {
      var m := Active(s).snaps[a];
      MoreChunks(h, Active(s), Active(s'), ChunkRefs(m.entries));
      FilesKept(h, Active(s), Active(s'), m.entries);
    }
  }

  lemma PruneKeeps(h: Hashes, s: Store, s': Store, retained: set<Digest>, a: Digest)
    requires MayPrune(s, s', retained)
    ensures Keeps(h, Active(s), Active(s'), a) && (a in retained ==> a in Active(s').snaps)
  {
    hide Files, ChunkRefs;
    var x, y := Active(s), Active(s');
    if Readable(h, x, a) && a in y.snaps {
      var m := x.snaps[a];
      forall r | r in ChunkRefs(m.entries) && Fetch(h, x, r).Some? ensures Fetch(h, y, r) == Fetch(h, x, r) {
        if y.chunks != x.chunks {
          assert a in retained;
          assert r.digest in Live(x.snaps, retained);
        }
      }
      FilesKept(h, x, y, m.entries);
    }
  }

  // ----- safety over all runs -----

  /** One operation, run to its end or cut off anywhere. */
  ghost predicate MayHappen(h: Hashes, s: Store, s': Store)
  {
    MayCreate(h, s, s') || MayCompact(s, s') || MayRepair(h, s, s') || exists retained :: MayPrune(s, s', retained)
  }

  ghost predicate Run(h: Hashes, run: seq<Store>)
  {
    run != [] && forall i :: 0 <= i < |run| - 1 ==> MayHappen(h, run[i], run[i + 1])
  }

  lemma StepKeeps(h: Hashes, s: Store, s': Store, a: Digest)
    requires MayHappen(h, s, s')
    ensures StoreOk(s) && StoreOk(s') && Keeps(h, Active(s), Active(s'), a)
  {
    hide MayCreate, MayCompact, MayRepair, MayPrune, Keeps, Readable;
    MayHappenOk(h, s, s');
    if MayCreate(h, s, s') {
      CreateKeeps(h, s, s', a);
    } else if MayCompact(s, s') {
      CompactKeeps(h, s, s', a);
    } else if MayRepair(h, s, s') {
      RepairKeeps(h, s, s', a);
    } else {
      var retained :| MayPrune(s, s', retained);
      PruneKeeps(h, s, s', retained, a);
    }
  }

  lemma MayHappenOk(h: Hashes, s: Store, s': Store)
    requires MayHappen(h, s, s')
    ensures StoreOk(s) && StoreOk(s')
  {
  }

  /** Whatever operations run or are cut off, no visible snapshot loses a chunk. */
  lemma SoundStep(h: Hashes, s: Store, s': Store)
    requires MayHappen(h, s, s') && Sound(h, s)
    ensures Sound(h, s')
  {
    hide Files, Fetch, Live;
    MayHappenOk(h, s, s');
    forall a | a in Active(s').snaps ensures Readable(h, Active(s'), a) {
      StepKeeps(h, s, s', a);
      if a !in Active(s).snaps {
        NewOnesReadable(h, s, s', a);
      }
    }
  }

  lemma NewOnesReadable(h: Hashes, s: Store, s': Store, a: Digest)
    requires MayHappen(h, s, s')
    ensures StoreOk(s) && StoreOk(s') && (a in Active(s').snaps && a !in Active(s).snaps ==> Readable(h, Active(s'), a))
  {
    hide Readable, Live;
  }

  lemma {:induction false} SoundRun(h: Hashes, run: seq<Store>, i: nat)
    requires Run(h, run) && Sound(h, run[0]) && i < |run|
    ensures Sound(h, run[i])
  {
    hide MayHappen, Sound;
    if i > 0 {
      SoundRun(h, run, i - 1);
      SoundStep(h, run[i - 1], run[i]);
    }
  }

  /** A snapshot that is restorable once and never removed restores to the same files ever after. */
  lemma {:induction false} RestoresSame(h: Hashes, run: seq<Store>, a: Digest, i: nat)
    requires Run(h, run) && i < |run| && forall k :: 0 <= k < |run| ==> StoreOk(run[k]) && a in Active(run[k]).snaps
    requires Readable(h, Active(run[0]), a)
    ensures Readable(h, Active(run[i]), a) && Active(run[i]).snaps[a] == Active(run[0]).snaps[a]
    ensures Files(h, Active(run[i]), Active(run[i]).snaps[a].entries) == Files(h, Active(run[0]), Active(run[0]).snaps[a].entries)
  {
    hide MayHappen, Files;
    if i > 0 {
      RestoresSame(h, run, a, i - 1);
      StepKeeps(h, run[i - 1], run[i], a);
    }
  }
}
