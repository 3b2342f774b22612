/** The archive writer's masters: which files repeat another, which share a chunk, and which master each file gets. */
module ArchiveGroups {
  import opened BitStrings
  import opened Sorting
  import opened Tally
  import Chunking

  const MASTER_MAX := 64000
  const GROUP_MAX := 256
  const PIECE := 16384
  const FIRST_MASTER := 2

  /** An entry once its data has been spooled. */
  datatype Input = Input(isDir: bool, data: seq<byte>)

  /** A chunk's hash and the file it occurs in. */
  datatype Chunk = Chunk(hash: nat, file: nat)

  datatype Master = Master(source: nat, size: nat, refLen: nat, refCount: nat)

  /** The total size of the files with a given master. */
  function MemberSize(inputs: seq<Input>, master: seq<nat>, m: nat): nat
    requires |inputs| == |master|
  {
    if inputs == [] then 0
    else
      var n := |inputs| - 1;
      MemberSize(inputs[..n], master[..n], m) + if master[n] == m then |inputs[n].data| else 0
  }

  lemma {:induction false} SizeUpdate(inputs: seq<Input>, master: seq<nat>, i: nat, v: nat, m: nat)
    requires |inputs| == |master| && i < |master|
    ensures MemberSize(inputs, master[i := v], m)
            == MemberSize(inputs, master, m) - (if master[i] == m then |inputs[i].data| else 0) + if v == m then |inputs[i].data| else 0
  {
    var n := |inputs| - 1;
    if i == n {
      assert master[i := v][..n] == master[..n];
    } else {
      assert master[i := v][..n] == master[..n][i := v];
      SizeUpdate(inputs[..n], master[..n], i, v, m);
    }
  }

  function FileCount(inputs: seq<Input>): nat
  {
    if inputs == [] then 0 else FileCount(inputs[..|inputs| - 1]) + if inputs[|inputs| - 1].isDir then 0 else 1
  }

  lemma {:induction false} FreeAtLeast(inputs: seq<Input>, master: seq<nat>)
    requires |inputs| == |master| && forall i :: 0 <= i < |inputs| && inputs[i].isDir ==> master[i] == 0
    ensures CountOf(master, 0) + FileCount(inputs) >= |inputs|
  {
    if inputs != [] {
      var n := |inputs| - 1;
      FreeAtLeast(inputs[..n], master[..n]);
    }
  }

  /** How much of a source is used as master data: at most 64000 bytes, and at least one. */
  function MasterSize(n: nat): nat
  {
    if n > MASTER_MAX then MASTER_MAX else if n == 0 then 1 else n
  }

  /** The record of a master is that of the files that have it; its source is one of the largest of them. */
  ghost predicate Describes(r: Master, inputs: seq<Input>, master: seq<nat>, m: nat)
    requires |inputs| == |master|
  {
    && r.refCount == CountOf(master, m) && r.refLen == MemberSize(inputs, master, m)
    && r.source < |inputs| && master[r.source] == m && r.size == MasterSize(|inputs[r.source].data|)
    && forall i :: 0 <= i < |inputs| && master[i] == m ==> |inputs[i].data| <= |inputs[r.source].data|
  }

  ghost predicate Grouped(inputs: seq<Input>, master: seq<nat>, masters: seq<Master>)
  {
    && |inputs| == |master|
    && (forall i :: 0 <= i < |inputs| ==> (master[i] == 0 || FIRST_MASTER <= master[i] < |masters| + FIRST_MASTER))
    && (forall i :: 0 <= i < |inputs| && inputs[i].isDir ==> master[i] == 0)
    && (forall k :: 0 <= k < |masters| ==> Describes(masters[k], inputs, master, k + FIRST_MASTER))
    && |masters| + CountOf(master, 0) <= |inputs|
  }

  ghost predicate Ascending(s: seq<nat>) { forall i, j :: 0 <= i < j < |s| ==> s[i] < s[j] }

  /** The files can become a group of their own. */
  ghost predicate Joinable(inputs: seq<Input>, master: seq<nat>, files: seq<nat>)
  {
    && |inputs| == |master| && Ascending(files)
    && forall k :: 0 <= k < |files| ==> files[k] < |inputs| && !inputs[files[k]].isDir && master[files[k]] == 0
  }

  /** Files from..to have moved to master m, the others have not moved. */
  ghost predicate Moved(before: seq<nat>, after: seq<nat>, files: seq<nat>, m: nat)
  {
    |before| == |after| && forall i :: 0 <= i < |before| ==> after[i] == if i in files then m else before[i]
  }

  lemma MoveOne(before: seq<nat>, after: seq<nat>, files: seq<nat>, i: nat, m: nat)
    requires i < |files| && files[i] < |before| && Moved(before, after, files[..i], m)
    ensures Moved(before, after[files[i] := m], files[..i + 1], m)
  {
    assert files[..i + 1] == files[..i] + [files[i]];
  }

  lemma NotYetMoved(inputs: seq<Input>, before: seq<nat>, after: seq<nat>, files: seq<nat>, i: nat, m: nat)
    requires Joinable(inputs, before, files) && i < |files| && Moved(before, after, files[..i], m)
    ensures files[i] < |after| && after[files[i]] == 0
  {
    forall k | 0 <= k < i ensures files[..i][k] != files[i] {
    }
  }

  /** How far the sums of one master have come after i of its files. */
  ghost predicate Summed(inputs: seq<Input>, before: seq<nat>, after: seq<nat>, r: Master, i: nat, m: nat)
  {
    && |inputs| == |before| == |after| && r.refCount == CountOf(after, m) == i && r.refLen == MemberSize(inputs, after, m)
    && CountOf(after, 0) + i == CountOf(before, 0)
    && forall w: nat :: w != 0 && w != m ==> SameSums(inputs, before, after, w)
  }

  ghost predicate SameSums(inputs: seq<Input>, before: seq<nat>, after: seq<nat>, w: nat)
    requires |inputs| == |before| == |after|
  {
    CountOf(after, w) == CountOf(before, w) && MemberSize(inputs, after, w) == MemberSize(inputs, before, w)
  }

  lemma SumOne(inputs: seq<Input>, before: seq<nat>, after: seq<nat>, r: Master, i: nat, file: nat, m: nat)
    requires Summed(inputs, before, after, r, i, m) && file < |inputs| && after[file] == 0 && m >= FIRST_MASTER
    ensures Summed(inputs, before, after[file := m], r.(refLen := r.refLen + |inputs[file].data|, refCount := r.refCount + 1), i + 1, m)
  {
    hide CountOf, MemberSize;
    var after' := after[file := m];
    CountUpdate(after, file, m, m);
    CountUpdate(after, file, m, 0);
    SizeUpdate(inputs, after, file, m, m);
    forall w: nat | w != 0 && w != m ensures SameSums(inputs, before, after', w) {
      assert SameSums(inputs, before, after, w);
      CountUpdate(after, file, m, w);
      SizeUpdate(inputs, after, file, m, w);
    }
  }

  lemma NoMembers(inputs: seq<Input>, master: seq<nat>, m: nat)
    requires |inputs| == |master| && forall i :: 0 <= i < |master| ==> master[i] != m
    ensures CountOf(master, m) == 0 && MemberSize(inputs, master, m) == 0
  {
    if inputs != [] {
      NoMembers(inputs[..|inputs| - 1], master[..|inputs| - 1], m);
    }
  }

  /** A new master keeps the records of the old ones. */
  lemma GroupedMore(inputs: seq<Input>, before: seq<nat>, after: seq<nat>, masters: seq<Master>, files: seq<nat>, r: Master)
    requires Grouped(inputs, before, masters) && Joinable(inputs, before, files) && files != []
    requires var m := |masters| + FIRST_MASTER;
             && Moved(before, after, files, m) && Summed(inputs, before, after, r, |files|, m)
             && r.source in files && r.source < |inputs| && r.size == MasterSize(|inputs[r.source].data|)
             && forall k :: 0 <= k < |files| ==> |inputs[files[k]].data| <= |inputs[r.source].data|
    ensures Grouped(inputs, after, masters + [r])
  {
    hide CountOf, MemberSize, Ascending;
    var m, masters' := |masters| + FIRST_MASTER, masters + [r];
    forall k | 0 <= k < |masters'| ensures Describes(masters'[k], inputs, after, k + FIRST_MASTER) {
      if k < |masters| {
        assert Describes(masters[k], inputs, before, k + FIRST_MASTER);
        assert SameSums(inputs, before, after, k + FIRST_MASTER);
      }
    }
  }

  /** Files with the same size and the same digest. */
  predicate SameKey(digest: seq<byte> -> nat, inputs: seq<Input>, a: nat, b: nat)
    requires a < |inputs| && b < |inputs|
  {
    |inputs[a].data| == |inputs[b].data| && digest(inputs[a].data) == digest(inputs[b].data)
  }

  function DataOf(inputs: seq<Input>, i: nat): seq<byte>
  {
    if i < |inputs| then inputs[i].data else []
  }

  /** The order of the duplicate index: size, digest, position. */
  predicate KeyBefore(digest: seq<byte> -> nat, inputs: seq<Input>, a: nat, b: nat)
  {
    var x, y := DataOf(inputs, a), DataOf(inputs, b);
    |x| < |y| || (|x| == |y| && (digest(x) < digest(y) || (digest(x) == digest(y) && a < b)))
  }

  /** The index as sorting leaves it: every file once, in order. */
  ghost predicate Index(digest: seq<byte> -> nat, inputs: seq<Input>, index: seq<nat>)
  {
    && (forall k :: 0 <= k < |index| ==> index[k] < |inputs| && !inputs[index[k]].isDir)
    && (forall i: nat :: i < |inputs| && !inputs[i].isDir ==> i in index)
    && (forall j, k :: 0 <= j < k < |index| ==> KeyBefore(digest, inputs, index[j], index[k]))
  }

  /** o is the first of the files with i's size and digest. */
  ghost predicate FirstOf(digest: seq<byte> -> nat, inputs: seq<Input>, o: nat, i: nat)
    requires i < |inputs|
  {
    && o <= i && !inputs[o].isDir && SameKey(digest, inputs, o, i)
    && forall j: nat :: j < |inputs| && !inputs[j].isDir && SameKey(digest, inputs, j, i) ==> o <= j
  }

  /** A file repeats the first file of its size and digest if the contents are the same, and never a repetition. */
  ghost predicate MarkedAt(digest: seq<byte> -> nat, inputs: seq<Input>, duplicate: seq<nat>, i: nat)
    requires |duplicate| == |inputs| && i < |inputs|
  {
    exists o: nat :: FirstOf(digest, inputs, o, i)
                     && duplicate[i] == if o != i && inputs[o].data == inputs[i].data then o + 1 else 0
  }

  lemma MarkedOriginal(digest: seq<byte> -> nat, inputs: seq<Input>, duplicate: seq<nat>, i: nat)
    requires |duplicate| == |inputs| && i < |inputs| && !inputs[i].isDir && duplicate[i] > 0
    requires forall j: nat :: j < |inputs| && !inputs[j].isDir ==> MarkedAt(digest, inputs, duplicate, j)
    ensures var o := duplicate[i] - 1;
            o < i && !inputs[o].isDir && inputs[o].data == inputs[i].data && duplicate[o] == 0
  {
    assert MarkedAt(digest, inputs, duplicate, i);
    var o := duplicate[i] - 1;
    assert FirstOf(digest, inputs, o, i);
    assert MarkedAt(digest, inputs, duplicate, o);
    var o': nat :| FirstOf(digest, inputs, o', o) && duplicate[o] == if o' != o && inputs[o'].data == inputs[o].data then o' + 1 else 0;
    assert SameKey(digest, inputs, o', i);
  }

  /** The file it repeats has the same contents and repeats none. */
  ghost predicate Original(inputs: seq<Input>, duplicate: seq<nat>, i: nat)
    requires |duplicate| == |inputs| && i < |inputs| && duplicate[i] > 0
  {
    var o := duplicate[i] - 1;
    o < |inputs| && !inputs[i].isDir && !inputs[o].isDir && inputs[o].data == inputs[i].data && duplicate[o] == 0
  }

  ghost predicate Originals(inputs: seq<Input>, duplicate: seq<nat>)
  {
    |duplicate| == |inputs| && forall i :: 0 <= i < |inputs| && duplicate[i] > 0 ==> Original(inputs, duplicate, i)
  }

  /** The first n entries have the master of their original, if they have one. */
  ghost predicate Adopted(before: seq<nat>, after: seq<nat>, duplicate: seq<nat>, n: nat)
  {
    && |before| == |after| == |duplicate|
    && forall i: nat :: i < |before| ==> AdoptedAt(before, after, duplicate, i, n)
  }

  ghost predicate AdoptedAt(before: seq<nat>, after: seq<nat>, duplicate: seq<nat>, i: nat, n: nat)
    requires i < |before| == |after| == |duplicate|
  {
    after[i] == if i < n && 0 < duplicate[i] <= |before| then before[duplicate[i] - 1] else before[i]
  }

  // ----- the chunk index -----

  predicate ChunkBefore(a: Chunk, b: Chunk)
  {
    a.hash < b.hash || (a.hash == b.hash && a.file <= b.file)
  }

  /** The chunk index as sorting leaves it: only files that may be grouped, by hash and file. */
  ghost predicate ChunkIndex(inputs: seq<Input>, duplicate: seq<nat>, chunks: seq<Chunk>)
  {
    && |duplicate| == |inputs|
    && (forall k :: 0 <= k < |chunks| ==>
          chunks[k].file < |inputs| && !inputs[chunks[k].file].isDir && duplicate[chunks[k].file] == 0)
    && (forall j, k :: 0 <= j < k < |chunks| ==> ChunkBefore(chunks[j], chunks[k]))
  }

  /** All files of a master contain the chunk. */
  ghost predicate Shares(chunks: seq<Chunk>, master: seq<nat>, m: nat, hash: nat)
  {
    forall i: nat :: i < |master| && master[i] == m ==> Chunk(hash, i) in chunks
  }

  /** No file with the chunk was left for a later master. */
  ghost predicate TakesAll(chunks: seq<Chunk>, master: seq<nat>, m: nat, hash: nat)
  {
    forall i: nat :: i < |master| && Chunk(hash, i) in chunks ==> 0 < master[i] <= m
  }

  /** The master is one of 2 to 256 files that share a chunk; if it is not full, no file with the chunk was left over. */
  ghost predicate ChunkGroup(chunks: seq<Chunk>, master: seq<nat>, r: Master, m: nat)
  {
    && 2 <= r.refCount <= GROUP_MAX
    && exists hash :: Shares(chunks, master, m, hash) && (r.refCount == GROUP_MAX || TakesAll(chunks, master, m, hash))
  }

  ghost predicate ByChunks(chunks: seq<Chunk>, master: seq<nat>, masters: seq<Master>)
  {
    forall k :: 0 <= k < |masters| ==> ChunkGroup(chunks, master, masters[k], k + FIRST_MASTER)
  }

  /** Every file with the chunk has a master or is one of these. */
  ghost predicate NoneLeft(chunks: seq<Chunk>, master: seq<nat>, files: seq<nat>, hash: nat)
  {
    forall i: nat :: i < |master| && Chunk(hash, i) in chunks ==> master[i] != 0 || i in files
  }

  lemma ByChunksMore(inputs: seq<Input>, chunks: seq<Chunk>, before: seq<nat>, after: seq<nat>, masters: seq<Master>, files: seq<nat>,
                     r: Master, hash: nat)
    requires Grouped(inputs, before, masters) && ByChunks(chunks, before, masters)
    requires Moved(before, after, files, |masters| + FIRST_MASTER) && 2 <= r.refCount <= GROUP_MAX
    requires Joinable(inputs, before, files) && (r.refCount == GROUP_MAX || NoneLeft(chunks, before, files, hash))
    requires forall k :: 0 <= k < |files| ==> Chunk(hash, files[k]) in chunks
    ensures ByChunks(chunks, after, masters + [r])
  {
    hide Describes, Ascending;
    var masters' := masters + [r];
    forall k | 0 <= k < |masters'|
      ensures ChunkGroup(chunks, after, masters'[k], k + FIRST_MASTER)
    {
      var m := k + FIRST_MASTER;
      if k < |masters| {
        assert ChunkGroup(chunks, before, masters[k], m);
        var h :| Shares(chunks, before, m, h) && (masters[k].refCount == GROUP_MAX || TakesAll(chunks, before, m, h));
        assert Shares(chunks, after, m, h);
        assert TakesAll(chunks, before, m, h) ==> TakesAll(chunks, after, m, h);
      } else {
        assert Shares(chunks, after, m, hash);
        assert NoneLeft(chunks, before, files, hash) ==> TakesAll(chunks, after, m, hash);
      }
    }
  }

  /** How many files that repeat no other have the given master. */
  function Firsts(duplicate: seq<nat>, master: seq<nat>, m: nat): nat
    requires |duplicate| == |master|
  {
    if master == [] then 0
    else
      var n := |master| - 1;
      Firsts(duplicate[..n], master[..n], m) + if duplicate[n] == 0 && master[n] == m then 1 else 0
  }

  lemma {:induction false} FirstsAre(duplicate: seq<nat>, master: seq<nat>, before: seq<nat>, m: nat)
    requires |duplicate| == |master| == |before|
    requires forall i :: 0 <= i < |master| ==> (duplicate[i] == 0 && master[i] == m <==> before[i] == m)
    ensures Firsts(duplicate, master, m) == CountOf(before, m)
  {
    if master != [] {
      var n := |master| - 1;
      FirstsAre(duplicate[..n], master[..n], before[..n], m);
    }
  }

  /**
    * The master is of 2 to 256 files that share a chunk, and of their repetitions; if there are fewer than 256, no file
    * with the chunk got a later master.
    */
  ghost predicate ShareSome(duplicate: seq<nat>, chunks: seq<Chunk>, master: seq<nat>, m: nat)
    requires |duplicate| == |master|
  {
    && 2 <= Firsts(duplicate, master, m) <= GROUP_MAX
    && exists hash :: SharesOnce(duplicate, chunks, master, m, hash)
                      && (Firsts(duplicate, master, m) == GROUP_MAX || TakesAll(chunks, master, m, hash))
  }

  /** No two different files with this master share a chunk. */
  ghost predicate NothingShared(chunks: seq<Chunk>, master: seq<nat>, m: nat)
  {
    forall p, q :: 0 <= p < |chunks| && 0 <= q < |chunks| && chunks[p].hash == chunks[q].hash ==> UnlessBoth(chunks, master, m, p, q)
  }

  ghost predicate UnlessBoth(chunks: seq<Chunk>, master: seq<nat>, m: nat, p: int, q: int)
    requires 0 <= p < |chunks| && 0 <= q < |chunks|
  {
    Has(master, chunks[p].file, m) && Has(master, chunks[q].file, m) ==> chunks[p].file == chunks[q].file
  }

  predicate Has(master: seq<nat>, file: nat, m: nat) { file < |master| && master[file] == m }

  /** Files without a master may get the given one. */
  ghost predicate LastAdded(before: seq<nat>, after: seq<nat>, m: nat)
  {
    |before| == |after| && forall i :: 0 <= i < |before| ==> after[i] == before[i] || (before[i] == 0 && after[i] == m)
  }

  lemma NothingGrouped(inputs: seq<Input>, master: seq<nat>, duplicate: seq<nat>)
    requires Grouped(inputs, master, []) && |duplicate| == |master|
    ensures Unadopted(master, duplicate, 0)
  {
    hide Describes;
  }

  lemma AdoptNext(before: seq<nat>, now: seq<nat>, after: seq<nat>, duplicate: seq<nat>, i: nat)
    requires Adopted(before, now, duplicate, i) && i < |now| && duplicate[i] <= |now|
    requires after == if duplicate[i] > 0 then now[i := before[duplicate[i] - 1]] else now
    ensures Adopted(before, after, duplicate, i + 1)
  {
    var n := i + 1;
    forall x: nat | x < |before| ensures AdoptedAt(before, after, duplicate, x, n) {
      assert AdoptedAt(before, now, duplicate, x, i);
    }
  }

  lemma AllHaveMasters(inputs: seq<Input>, duplicate: seq<nat>, all: seq<nat>, master: seq<nat>)
    requires Originals(inputs, duplicate) && Adopted(all, master, duplicate, |all|) && |all| == |inputs|
    requires forall i :: 0 <= i < |inputs| && !inputs[i].isDir && duplicate[i] == 0 ==> all[i] != 0
    ensures forall i :: 0 <= i < |inputs| && !inputs[i].isDir ==> master[i] != 0
    ensures forall i :: 0 <= i < |inputs| && 0 < duplicate[i] <= |inputs| ==> master[i] == master[duplicate[i] - 1]
  {
    forall i: nat | i < |inputs| && !inputs[i].isDir
      ensures master[i] != 0 && (duplicate[i] > 0 ==> duplicate[i] <= |inputs| && master[i] == master[duplicate[i] - 1])
    {
      assert AdoptedAt(all, master, duplicate, i, |all|);
      if duplicate[i] > 0 {
        assert Original(inputs, duplicate, i);
        assert AdoptedAt(all, master, duplicate, duplicate[i] - 1, |all|);
      }
    }
    forall i: nat | i < |inputs| && duplicate[i] > 0 ensures !inputs[i].isDir {
      assert Original(inputs, duplicate, i);
    }
  }

  lemma GroupsKept(inputs: seq<Input>, duplicate: seq<nat>, chunks: seq<Chunk>, byChunks: seq<nat>, all: seq<nat>, master: seq<nat>,
                   grouped: seq<Master>, k: nat)
    requires Grouped(inputs, byChunks, grouped) && ByChunks(chunks, byChunks, grouped) && k < |grouped|
    requires LastAdded(byChunks, all, |grouped| + FIRST_MASTER) && Unadopted(byChunks, duplicate, 0)
    requires Adopted(all, master, duplicate, |all|) && ChunkIndex(inputs, duplicate, chunks)
    ensures ShareSome(duplicate, chunks, master, k + FIRST_MASTER)
  {
    hide CountOf, MemberSize, Firsts;
    var m := k + FIRST_MASTER;
    assert ChunkGroup(chunks, byChunks, grouped[k], m) && Describes(grouped[k], inputs, byChunks, m);
    forall i: nat | i < |master| ensures duplicate[i] == 0 && master[i] == m <==> byChunks[i] == m {
      assert AdoptedAt(all, master, duplicate, i, |all|);
      assert all[i] == byChunks[i] || (byChunks[i] == 0 && all[i] == |grouped| + FIRST_MASTER);
    }
    FirstsAre(duplicate, master, byChunks, m);
    var hash :| Shares(chunks, byChunks, m, hash)
                && (grouped[k].refCount == GROUP_MAX || TakesAll(chunks, byChunks, m, hash));
    assert SharesOnce(duplicate, chunks, master, m, hash);
    if TakesAll(chunks, byChunks, m, hash) {
      AllStillTaken(inputs, duplicate, chunks, byChunks, all, master, m, hash, |grouped| + FIRST_MASTER);
    }
  }

  lemma AllStillTaken(inputs: seq<Input>, duplicate: seq<nat>, chunks: seq<Chunk>, byChunks: seq<nat>, all: seq<nat>, master: seq<nat>,
                      m: nat, hash: nat, last: nat)
    requires ChunkIndex(inputs, duplicate, chunks) && LastAdded(byChunks, all, last) && Adopted(all, master, duplicate, |all|)
    requires TakesAll(chunks, byChunks, m, hash)
    ensures TakesAll(chunks, master, m, hash)
  {
    forall i: nat | i < |master| && Chunk(hash, i) in chunks ensures 0 < master[i] <= m {
      var q :| 0 <= q < |chunks| && chunks[q] == Chunk(hash, i);
      assert AdoptedAt(all, master, duplicate, i, |all|);
    }
  }

  /** What was left over by the chunks has nothing to share. */
  lemma RestSharesNothing(inputs: seq<Input>, duplicate: seq<nat>, chunks: seq<Chunk>, byChunks: seq<nat>, all: seq<nat>, master: seq<nat>,
                          grouped: seq<Master>)
    requires Grouped(inputs, byChunks, grouped) && Apart(chunks, byChunks, |chunks|) && ChunkIndex(inputs, duplicate, chunks)
    requires LastAdded(byChunks, all, |grouped| + FIRST_MASTER) && Adopted(all, master, duplicate, |all|)
    ensures NothingShared(chunks, master, |grouped| + FIRST_MASTER)
  {
    hide Describes;
    var m := |grouped| + FIRST_MASTER;
    forall p, q | 0 <= p < |chunks| && 0 <= q < |chunks| && chunks[p].hash == chunks[q].hash ensures UnlessBoth(chunks, master, m, p, q) {
      assert ApartAt(chunks, byChunks, p, q);
      LeftOver(inputs, duplicate, byChunks, all, master, grouped, chunks[p].file);
      LeftOver(inputs, duplicate, byChunks, all, master, grouped, chunks[q].file);
    }
  }

  lemma LeftOver(inputs: seq<Input>, duplicate: seq<nat>, byChunks: seq<nat>, all: seq<nat>, master: seq<nat>, grouped: seq<Master>, file: nat)
    requires Grouped(inputs, byChunks, grouped) && LastAdded(byChunks, all, |grouped| + FIRST_MASTER)
    requires Adopted(all, master, duplicate, |all|) && file < |duplicate| && duplicate[file] == 0
    ensures Has(master, file, |grouped| + FIRST_MASTER) ==> Free(byChunks, file)
  {
    hide Describes;
    assert file < |all| ==> AdoptedAt(all, master, duplicate, file, |all|);
  }

  ghost predicate SharesOnce(duplicate: seq<nat>, chunks: seq<Chunk>, master: seq<nat>, m: nat, hash: nat)
    requires |duplicate| == |master|
  {
    forall i: nat :: i < |master| && duplicate[i] == 0 && master[i] == m ==> Chunk(hash, i) in chunks
  }

  /** The candidates of a hash so far: files not yet grouped, each once, from the entries before j. */
  ghost predicate Candidates(inputs: seq<Input>, chunks: seq<Chunk>, master: seq<nat>, ids: seq<nat>, hash: nat, j: nat)
  {
    && j <= |chunks| && Joinable(inputs, master, ids)
    && forall k :: 0 <= k < |ids| ==> Chunk(hash, ids[k]) in chunks[..j]
  }

  /** The next file of the same hash comes behind all candidates, unless it is the last of them again. */
  lemma NextCandidate(inputs: seq<Input>, duplicate: seq<nat>, chunks: seq<Chunk>, master: seq<nat>, ids: seq<nat>, j: nat)
    requires ChunkIndex(inputs, duplicate, chunks) && j < |chunks| && Candidates(inputs, chunks, master, ids, chunks[j].hash, j)
    requires master[chunks[j].file] == 0 && (ids != [] ==> ids[|ids| - 1] != chunks[j].file)
    ensures Candidates(inputs, chunks, master, ids + [chunks[j].file], chunks[j].hash, j + 1)
  {
    var hash, file := chunks[j].hash, chunks[j].file;
    if ids != [] {
      var q :| 0 <= q < j && chunks[..j][q] == Chunk(hash, ids[|ids| - 1]);
      assert ChunkBefore(chunks[q], chunks[j]);
    }
    assert chunks[..j + 1] == chunks[..j] + [chunks[j]];
  }

  lemma SameCandidates(inputs: seq<Input>, chunks: seq<Chunk>, master: seq<nat>, ids: seq<nat>, hash: nat, j: nat)
    requires Candidates(inputs, chunks, master, ids, hash, j) && j < |chunks|
    ensures Candidates(inputs, chunks, master, ids, hash, j + 1)
  {
    assert chunks[..j + 1] == chunks[..j] + [chunks[j]];
  }

  lemma CandidatesShare(inputs: seq<Input>, chunks: seq<Chunk>, master: seq<nat>, ids: seq<nat>, hash: nat, j: nat)
    requires Candidates(inputs, chunks, master, ids, hash, j)
    ensures Joinable(inputs, master, ids) && forall k :: 0 <= k < |ids| ==> Chunk(hash, ids[k]) in chunks
  {
  }

  lemma NoCandidates(inputs: seq<Input>, chunks: seq<Chunk>, master: seq<nat>, hash: nat, j: nat)
    requires |inputs| == |master| && j <= |chunks|
    ensures Candidates(inputs, chunks, master, [], hash, j)
  {
  }

  // ----- no shared chunk is overlooked -----

  /** Of the first n entries, no two of one hash are of different files without a master. */
  ghost predicate Apart(chunks: seq<Chunk>, master: seq<nat>, n: nat)
  {
    && n <= |chunks|
    && forall p, q :: 0 <= p < n && 0 <= q < n && chunks[p].hash == chunks[q].hash ==> ApartAt(chunks, master, p, q)
  }

  ghost predicate ApartAt(chunks: seq<Chunk>, master: seq<nat>, p: int, q: int)
    requires 0 <= p < |chunks| && 0 <= q < |chunks|
  {
    Free(master, chunks[p].file) && Free(master, chunks[q].file) ==> chunks[p].file == chunks[q].file
  }

  predicate Free(master: seq<nat>, file: nat) { file < |master| && master[file] == 0 }

  /** The files without a master of the entries from i to j are candidates. */
  ghost predicate Caught(chunks: seq<Chunk>, master: seq<nat>, ids: seq<nat>, i: nat, j: nat)
  {
    j <= |chunks| && forall q :: i <= q < j && Free(master, chunks[q].file) ==> chunks[q].file in ids
  }

  lemma NoneCaught(chunks: seq<Chunk>, master: seq<nat>, i: nat)
    requires i <= |chunks|
    ensures Caught(chunks, master, [], i, i)
  {
  }

  lemma CaughtNext(chunks: seq<Chunk>, master: seq<nat>, ids: seq<nat>, ids': seq<nat>, i: nat, j: nat)
    requires Caught(chunks, master, ids, i, j) && j < |chunks| && ids <= ids'
    requires Free(master, chunks[j].file) ==> chunks[j].file in ids'
    ensures Caught(chunks, master, ids', i, j + 1)
  {
    hide Free;
  }

  /** Once the candidates have a master, nothing is left to catch. */
  lemma CaughtAll(chunks: seq<Chunk>, before: seq<nat>, after: seq<nat>, ids: seq<nat>, m: nat, i: nat, j: nat)
    requires Caught(chunks, before, ids, i, j) && Moved(before, after, ids, m) && m > 0
    ensures Caught(chunks, after, [], i, j)
  {
  }

  lemma ApartLater(chunks: seq<Chunk>, before: seq<nat>, after: seq<nat>, ids: seq<nat>, m: nat, n: nat)
    requires Apart(chunks, before, n) && Moved(before, after, ids, m) && m > 0
    ensures Apart(chunks, after, n)
  {
    forall p, q | 0 <= p < n && 0 <= q < n && chunks[p].hash == chunks[q].hash ensures ApartAt(chunks, after, p, q) {
      assert ApartAt(chunks, before, p, q);
    }
  }

  /** The entries of one hash are entries i to end. */
  ghost predicate WholeRun(chunks: seq<Chunk>, i: nat, end: nat)
  {
    && i < end <= |chunks|
    && (forall q :: i <= q < end ==> chunks[q].hash == chunks[i].hash)
    && forall q :: 0 <= q < |chunks| && !(i <= q < end) ==> chunks[q].hash != chunks[i].hash
  }

  lemma RunIsWhole(inputs: seq<Input>, duplicate: seq<nat>, chunks: seq<Chunk>, i: nat, end: nat)
    requires ChunkIndex(inputs, duplicate, chunks) && i < end <= |chunks|
    requires forall q :: i <= q < end ==> chunks[q].hash == chunks[i].hash
    requires end < |chunks| ==> chunks[end].hash != chunks[i].hash
    requires i > 0 ==> chunks[i - 1].hash != chunks[i].hash
    ensures WholeRun(chunks, i, end)
  {
    forall q | 0 <= q < |chunks| && !(i <= q < end) ensures chunks[q].hash != chunks[i].hash {
      if q < i {
        assert q < i - 1 ==> ChunkBefore(chunks[q], chunks[i - 1]);
        assert ChunkBefore(chunks[i - 1], chunks[i]);
      } else {
        assert end < q ==> ChunkBefore(chunks[end], chunks[q]);
        assert ChunkBefore(chunks[i], chunks[end]);
      }
    }
  }

  lemma ApartNext(chunks: seq<Chunk>, master: seq<nat>, ids: seq<nat>, i: nat, end: nat)
    requires Apart(chunks, master, i) && WholeRun(chunks, i, end) && Caught(chunks, master, ids, i, end) && |ids| < 2
    ensures Apart(chunks, master, end)
  {
    hide Free;
    forall p, q | 0 <= p < end && 0 <= q < end && chunks[p].hash == chunks[q].hash ensures ApartAt(chunks, master, p, q) {
      if p < i && q < i {
        assert ApartAt(chunks, master, p, q);
      }
    }
  }

  lemma NoneLeftOfRun(chunks: seq<Chunk>, master: seq<nat>, ids: seq<nat>, i: nat, end: nat)
    requires WholeRun(chunks, i, end) && Caught(chunks, master, ids, i, end)
    ensures NoneLeft(chunks, master, ids, chunks[i].hash)
  {
    forall x: nat | x < |master| && Chunk(chunks[i].hash, x) in chunks ensures master[x] != 0 || x in ids {
      var q :| 0 <= q < |chunks| && chunks[q] == Chunk(chunks[i].hash, x);
      assert i <= q < end;
    }
  }

  lemma NoneApart(chunks: seq<Chunk>, master: seq<nat>)
    ensures Apart(chunks, master, 0)
  {
  }

  /** Files that repeat another have no master of their own. */
  ghost predicate Unadopted(master: seq<nat>, duplicate: seq<nat>, from: nat)
  {
    |master| == |duplicate| && forall i :: from <= i < |master| && duplicate[i] > 0 ==> master[i] == 0
  }

  lemma StillUnadopted(inputs: seq<Input>, before: seq<nat>, after: seq<nat>, duplicate: seq<nat>, files: seq<nat>, m: nat)
    requires Unadopted(before, duplicate, 0) && Moved(before, after, files, m)
    requires forall k :: 0 <= k < |files| ==> files[k] < |duplicate| && duplicate[files[k]] == 0
    ensures Unadopted(after, duplicate, 0)
  {
  }

  /** A repetition joins the master of its original. */
  lemma AdoptOne(inputs: seq<Input>, master: seq<nat>, masters: seq<Master>, i: nat, o: nat)
    requires Grouped(inputs, master, masters) && i < |inputs| && o < |inputs| && !inputs[i].isDir
    requires master[i] == 0 && master[o] != 0 && |inputs[i].data| == |inputs[o].data|
    ensures var k := master[o] - FIRST_MASTER;
            && 0 <= k < |masters|
            && var r := masters[k];
               Grouped(inputs, master[i := master[o]],
                       masters[k := r.(refLen := r.refLen + |inputs[i].data|, refCount := r.refCount + 1)])
  {
    hide CountOf, MemberSize;
    var m := master[o];
    var k := m - FIRST_MASTER;
    var r := masters[k];
    var after, masters' := master[i := m], masters[k := r.(refLen := r.refLen + |inputs[i].data|, refCount := r.refCount + 1)];
    CountUpdate(master, i, m, 0);
    forall q | 0 <= q < |masters| ensures Describes(masters'[q], inputs, after, q + FIRST_MASTER) {
      assert Describes(masters[q], inputs, master, q + FIRST_MASTER);
      CountUpdate(master, i, m, q + FIRST_MASTER);
      SizeUpdate(inputs, master, i, m, q + FIRST_MASTER);
    }
  }

  class Writer {
    const inputs: seq<Input>
    const master: array<nat>     // 0, or the number of the file's master
    const duplicate: array<nat>  // 0, or one more than the index of the file it repeats
    var masters: seq<Master>

    ghost predicate Valid()
      reads this, master
    {
      master != duplicate && duplicate.Length == |inputs| && Grouped(inputs, master[..], masters)
    }

    constructor (inputs: seq<Input>)
      ensures Valid() && this.inputs == inputs && fresh(master) && fresh(duplicate) && masters == []
      ensures forall i :: 0 <= i < |inputs| ==> master[i] == 0 && duplicate[i] == 0
    {
      this.inputs := inputs;
      master := new nat[|inputs|](_ => 0);
      duplicate := new nat[|inputs|](_ => 0);
      masters := [];
      new;
      CountAtMost(master[..], 0);
    }

    /** Gives a set of files a master of their own. */
    method AddMaster(files: seq<nat>)
      requires Valid() && files != [] && Joinable(inputs, master[..], files)
      modifies this`masters, master
      ensures Valid() && |masters| == old(|masters|) + 1 && masters[..old(|masters|)] == old(masters)
      ensures Moved(old(master[..]), master[..], files, old(|masters|) + FIRST_MASTER)
      ensures masters[old(|masters|)].refCount == |files|
    {
      hide CountOf, MemberSize, Ascending, Describes, Grouped, Joinable;
      ghost var before := master[..];
      var m: nat := |masters| + FIRST_MASTER;
      var r := Master(files[0], 0, 0, 0);
      JoinableAt(inputs, before, files, 0);
      FreshMaster(inputs, before, masters);
      for i := 0 to |files|
        invariant master.Length == |inputs| && masters == old(masters)
        invariant Moved(before, master[..], files[..i], m) && Summed(inputs, before, master[..], r, i, m)
        invariant r.source in files && r.source < |inputs|
        invariant forall k :: 0 <= k < i ==> files[k] < |inputs| && |inputs[files[k]].data| <= |inputs[r.source].data|
      {
        JoinableAt(inputs, before, files, i);
        NotYetMoved(inputs, before, master[..], files, i, m);
        MoveOne(before, master[..], files, i, m);
        SumOne(inputs, before, master[..], r, i, files[i], m);
        ghost var now := master[..];
        if |inputs[files[i]].data| > |inputs[r.source].data| {
          r := r.(source := files[i]);
        }
        master[files[i]] := m;
        assert master[..] == now[files[i] := m];
        r := r.(refLen := r.refLen + |inputs[files[i]].data|, refCount := r.refCount + 1);
      }
      assert files[..|files|] == files;
      r := r.(size := |inputs[r.source].data|);
      if r.size > MASTER_MAX {
        r := r.(size := MASTER_MAX);
      }
      if r.size == 0 {
        r := r.(size := 1);
      }
      GroupedMore(inputs, before, master[..], masters, files, r);
      masters := masters + [r];
    }

    /** Compares two files piece by piece. */
    method SameContents(a: seq<byte>, b: seq<byte>) returns (same: bool)
      requires |a| == |b|
      ensures same <==> a == b
    {
      var pos := 0;
      while pos < |a|
        invariant pos <= |a| && a[..pos] == b[..pos]
      {
        var n := if |a| - pos > PIECE then PIECE else |a| - pos;
        if a[pos..pos + n] != b[pos..pos + n] {
          return false;
        }
        assert a[..pos + n] == a[..pos] + a[pos..pos + n] && b[..pos + n] == b[..pos] + b[pos..pos + n];
        pos := pos + n;
      }
      assert a[..pos] == a && b[..pos] == b;
      same := true;
    }

    /** Marks every file whose contents are those of the first file of its size and digest. */
    method MarkDuplicates(index: seq<nat>, digest: seq<byte> -> nat)
      requires duplicate.Length == |inputs| && Index(digest, inputs, index)
      requires forall i :: 0 <= i < |inputs| ==> duplicate[i] == 0
      modifies duplicate
      ensures forall i: nat :: i < |inputs| && !inputs[i].isDir ==> MarkedAt(digest, inputs, duplicate[..], i)
      ensures Originals(inputs, duplicate[..])
    {
      hide FirstOf, MarkedAt, KeyBefore, MarkedTo;
      NoneMarked(digest, inputs, index, duplicate[..]);
      var i: nat := 0;
      while i < |index|
        invariant i <= |index| && MarkedTo(digest, inputs, index, duplicate[..], i)
        invariant i < |index| ==> FirstInIndex(digest, inputs, index, i)
      {
        MarkedShape(digest, inputs, index, duplicate[..], i);
        var first := index[i];
        FirstOfRun(digest, inputs, index, i, i);
        MarkNext(digest, inputs, index, duplicate[..], duplicate[..], first, i);
        var j: nat := i + 1;
        while j < |index| && SameKey(digest, inputs, index[j], first)
          invariant i < j <= |index| && MarkedTo(digest, inputs, index, duplicate[..], j)
          invariant SameKey(digest, inputs, index[j - 1], first)
          decreases |index| - j
        {
          FirstOfRun(digest, inputs, index, i, j);
          ghost var was := duplicate[..];
          var same := SameContents(inputs[index[j]].data, inputs[first].data);
          if same {
            duplicate[index[j]] := first + 1;
            assert duplicate[..] == was[index[j] := first + 1];
          }
          MarkNext(digest, inputs, index, was, duplicate[..], first, j);
          j := j + 1;
        }
        if j < |index| {
          NextRun(digest, inputs, index, i, j);
        }
        i := j;
      }
      AllMarked(digest, inputs, index, duplicate[..]);
      forall q: nat | q < |inputs| && duplicate[q] > 0 ensures Original(inputs, duplicate[..], q) {
        MarkedOriginal(digest, inputs, duplicate[..], q);
      }
    }

    /** Groups files that share a chunk, by at least 2 and at most 256. */
    method GroupByChunks(chunks: seq<Chunk>)
      requires Valid() && masters == [] && ChunkIndex(inputs, duplicate[..], chunks) && Unadopted(master[..], duplicate[..], 0)
      modifies this`masters, master
      ensures Valid() && ByChunks(chunks, master[..], masters) && Unadopted(master[..], duplicate[..], 0)
      ensures Apart(chunks, master[..], |chunks|)
    {
      hide Grouped, Candidates, Joinable, Moved, ByChunks, Unadopted, Apart, Caught, WholeRun;
      ghost var dup := duplicate[..];
      NoGroups(chunks, master[..]);
      NoneApart(chunks, master[..]);
      var i: nat := 0;
      while i < |chunks|
        invariant i <= |chunks| && Valid() && ByChunks(chunks, master[..], masters)
        invariant duplicate[..] == dup && Unadopted(master[..], dup, 0)
        invariant Apart(chunks, master[..], i) && (0 < i < |chunks| ==> chunks[i - 1].hash != chunks[i].hash)
      {
        var end := i + 1;
        while end < |chunks| && chunks[end].hash == chunks[i].hash
          invariant i < end <= |chunks| && forall q :: i <= q < end ==> chunks[q].hash == chunks[i].hash
        {
          end := end + 1;
        }
        RunIsWhole(inputs, dup, chunks, i, end);
        var ids: seq<nat>, previous: nat := [], |inputs|;
        NoneCaught(chunks, master[..], i);
        GroupedShape(inputs, master[..], masters);
        NoCandidates(inputs, chunks, master[..], chunks[i].hash, i);
        for j := i to end
          invariant Valid() && ByChunks(chunks, master[..], masters) && duplicate[..] == dup && Unadopted(master[..], dup, 0)
          invariant Candidates(inputs, chunks, master[..], ids, chunks[i].hash, j)
          invariant |ids| < GROUP_MAX && (ids != [] ==> ids[|ids| - 1] == previous)
          invariant ids == [] && previous < |inputs| ==> master[previous] != 0
          invariant Caught(chunks, master[..], ids, i, j) && Apart(chunks, master[..], i)
        {
          var file := chunks[j].file;
          GroupedShape(inputs, master[..], masters);
          if file == previous || master[file] != 0 {
            SameCandidates(inputs, chunks, master[..], ids, chunks[i].hash, j);
            CaughtNext(chunks, master[..], ids, ids, i, j);
          } else {
            NextCandidate(inputs, dup, chunks, master[..], ids, j);
            CaughtNext(chunks, master[..], ids, ids + [file], i, j);
            previous := file;
            ids := ids + [file];
            if |ids| == GROUP_MAX {
              AddGroup(chunks, ids, chunks[i].hash, i, j + 1);
              GroupedShape(inputs, master[..], masters);
              NoCandidates(inputs, chunks, master[..], chunks[i].hash, j + 1);
              ids := [];
            }
          }
        }
        if |ids| >= 2 {
          NoneLeftOfRun(chunks, master[..], ids, i, end);
          AddGroup(chunks, ids, chunks[i].hash, i, end);
          ids := [];
        }
        ApartNext(chunks, master[..], ids, i, end);
        i := end;
      }
    }

    method AddGroup(chunks: seq<Chunk>, ids: seq<nat>, ghost hash: nat, ghost i: nat, ghost j: nat)
      requires Valid() && ChunkIndex(inputs, duplicate[..], chunks) && Candidates(inputs, chunks, master[..], ids, hash, j)
      requires 2 <= |ids| <= GROUP_MAX && ByChunks(chunks, master[..], masters) && Unadopted(master[..], duplicate[..], 0)
      requires |ids| == GROUP_MAX || NoneLeft(chunks, master[..], ids, hash)
      requires i <= j && Caught(chunks, master[..], ids, i, j) && Apart(chunks, master[..], i)
      modifies this`masters, master
      ensures Valid() && ByChunks(chunks, master[..], masters) && Unadopted(master[..], duplicate[..], 0)
      ensures Caught(chunks, master[..], [], i, j) && Apart(chunks, master[..], i)
      ensures forall k :: 0 <= k < |ids| ==> ids[k] < |inputs| == master.Length && master[ids[k]] != 0
    {
      hide Grouped, Candidates, Joinable, Moved, ByChunks, Unadopted, Apart, Caught, NoneLeft;
      ghost var before, old_masters, dup := master[..], masters, duplicate[..];
      CandidatesShare(inputs, chunks, before, ids, hash, j);
      InIndex(inputs, dup, chunks, ids, hash);
      AddMaster(ids);
      assert masters == old_masters + [masters[|old_masters|]];
      ByChunksMore(inputs, chunks, before, master[..], old_masters, ids, masters[|old_masters|], hash);
      StillUnadopted(inputs, before, master[..], dup, ids, |old_masters| + FIRST_MASTER);
      CaughtAll(chunks, before, master[..], ids, |old_masters| + FIRST_MASTER, i, j);
      ApartLater(chunks, before, master[..], ids, |old_masters| + FIRST_MASTER, i);
      NowMoved(inputs, before, master[..], ids, |old_masters| + FIRST_MASTER);
    }

    /** Everything that shares nothing gets one master together. */
    method GroupRest()
      requires Valid() && Unadopted(master[..], duplicate[..], 0)
      modifies this`masters, master
      ensures Valid() && Unadopted(master[..], duplicate[..], 0)
      ensures forall i :: 0 <= i < |inputs| && !inputs[i].isDir && duplicate[i] == 0 ==> master[i] != 0
      ensures old(masters) <= masters && |masters| <= |old(masters)| + 1
      ensures LastAdded(old(master[..]), master[..], |old(masters)| + FIRST_MASTER)
    {
      hide Describes, CountOf;
      ghost var before, dup := master[..], duplicate[..];
      var remaining: seq<nat> := [];
      for i := 0 to |inputs|
        invariant Joinable(inputs, before, remaining)
        invariant forall k :: 0 <= k < |remaining| ==> remaining[k] < i && dup[remaining[k]] == 0
        invariant forall x: nat :: x < i && !inputs[x].isDir && dup[x] == 0 && before[x] == 0 ==> x in remaining
      {
        if !inputs[i].isDir && duplicate[i] == 0 && master[i] == 0 {
          remaining := remaining + [i];
        }
      }
      if remaining != [] {
        AddMaster(remaining);
        StillUnadopted(inputs, before, master[..], dup, remaining, |old(masters)| + FIRST_MASTER);
      }
    }

    /** Repetitions get the masters of their originals. */
    method AdoptDuplicates()
      requires Valid() && Unadopted(master[..], duplicate[..], 0)
      requires Originals(inputs, duplicate[..])
      requires forall i :: 0 <= i < |inputs| && !inputs[i].isDir && duplicate[i] == 0 ==> master[i] != 0
      modifies this`masters, master
      ensures Valid() && |masters| == old(|masters|) && duplicate[..] == old(duplicate[..])
      ensures Adopted(old(master[..]), master[..], duplicate[..], |inputs|)
    {
      hide CountOf, Describes;
      ghost var before, dup := master[..], duplicate[..];
      for i := 0 to |inputs|
        invariant Valid() && |masters| == old(|masters|) && duplicate[..] == dup && Unadopted(master[..], dup, i)
        invariant Adopted(before, master[..], dup, i)
      {
        ghost var now := master[..];
        if duplicate[i] > 0 {
          var o := duplicate[i] - 1;
          assert Original(inputs, dup, i);
          assert AdoptedAt(before, master[..], dup, o, i) && AdoptedAt(before, master[..], dup, i, i);
          AdoptOne(inputs, master[..], masters, i, o);
          var k := master[o] - FIRST_MASTER;
          var r := masters[k];
          master[i] := master[o];
          assert master[..] == now[i := now[o]];
          masters := masters[k := r.(refLen := r.refLen + |inputs[i].data|, refCount := r.refCount + 1)];
        }
        AdoptNext(before, now, master[..], dup, i);
      }
    }

    /**
      * The grouping as a whole: every file ends up with exactly one master, repetitions with that of their original, every
      * master's record is that of its files, and there are no more masters than files. All masters but perhaps the last
      * are of 2 to 256 files that share a chunk, and their repetitions; if the last is not, no two of its files share one.
      */
    method Group(chunks: seq<Chunk>)
      requires Valid() && masters == [] && Originals(inputs, duplicate[..]) && ChunkIndex(inputs, duplicate[..], chunks)
      modifies this`masters, master
      ensures Valid() && |masters| <= FileCount(inputs)
      ensures forall i :: 0 <= i < |inputs| ==> (master[i] == 0 <==> inputs[i].isDir)
      ensures forall i :: 0 <= i < |inputs| && 0 < duplicate[i] <= |inputs| ==> master[i] == master[duplicate[i] - 1]
      ensures duplicate[..] == old(duplicate[..])
      ensures forall m: nat :: FIRST_MASTER <= m < |masters| + FIRST_MASTER - 1 ==> ShareSome(duplicate[..], chunks, master[..], m)
      ensures masters == [] || ShareSome(duplicate[..], chunks, master[..], |masters| + FIRST_MASTER - 1)
              || NothingShared(chunks, master[..], |masters| + FIRST_MASTER - 1)
    {
      hide ChunkIndex, Describes, CountOf, ByChunks, Apart, NothingShared, ShareSome;
      ghost var dup := duplicate[..];
      NothingGrouped(inputs, master[..], dup);
      GroupByChunks(chunks);
      ghost var byChunks, grouped := master[..], masters;
      GroupRest();
      ghost var all := master[..];
      AdoptDuplicates();
      AllHaveMasters(inputs, dup, all, master[..]);
      FreeAtLeast(inputs, master[..]);
      forall m: nat | FIRST_MASTER <= m < |masters| + FIRST_MASTER - 1 ensures ShareSome(dup, chunks, master[..], m) {
        GroupsKept(inputs, dup, chunks, byChunks, all, master[..], grouped, m - FIRST_MASTER);
      }
      if |masters| > |grouped| {
        RestSharesNothing(inputs, dup, chunks, byChunks, all, master[..], grouped);
      } else if masters != [] {
        GroupsKept(inputs, dup, chunks, byChunks, all, master[..], grouped, |masters| - 1);
      }
    }
  }

  lemma {:induction false} CountAtMost(s: seq<nat>, w: nat)
    ensures CountOf(s, w) <= |s|
  {
    if s != [] {
      CountAtMost(s[..|s| - 1], w);
    }
  }

  lemma NowMoved(inputs: seq<Input>, before: seq<nat>, after: seq<nat>, files: seq<nat>, m: nat)
    requires Joinable(inputs, before, files) && Moved(before, after, files, m)
    ensures forall k :: 0 <= k < |files| ==> files[k] < |inputs| == |after| && after[files[k]] == m
  {
  }

  lemma JoinableAt(inputs: seq<Input>, master: seq<nat>, files: seq<nat>, k: nat)
    requires Joinable(inputs, master, files) && k < |files|
    ensures files[k] < |inputs| == |master| && !inputs[files[k]].isDir && master[files[k]] == 0
  {
  }

  lemma FreshMaster(inputs: seq<Input>, master: seq<nat>, masters: seq<Master>)
    requires Grouped(inputs, master, masters)
    ensures Moved(master, master, [], |masters| + FIRST_MASTER)
    ensures forall r: Master :: r.refLen == r.refCount == 0 ==> Summed(inputs, master, master, r, 0, |masters| + FIRST_MASTER)
  {
    hide Describes;
    NoMembers(inputs, master, |masters| + FIRST_MASTER);
  }

  // ----- runs of the duplicate index -----

  ghost predicate MarkedTo(digest: seq<byte> -> nat, inputs: seq<Input>, index: seq<nat>, duplicate: seq<nat>, n: nat)
  {
    && |duplicate| == |inputs| && n <= |index| && Index(digest, inputs, index)
    && (forall k :: 0 <= k < n ==> MarkedAt(digest, inputs, duplicate, index[k]))
    && (forall k :: n <= k < |index| ==> duplicate[index[k]] == 0)
    && (forall i :: 0 <= i < |inputs| && inputs[i].isDir ==> duplicate[i] == 0)
  }

  /** No file before this one in the index has its size and digest. */
  ghost predicate FirstInIndex(digest: seq<byte> -> nat, inputs: seq<Input>, index: seq<nat>, i: nat)
    requires Index(digest, inputs, index) && i < |index|
  {
    forall k :: 0 <= k < i ==> !SameKey(digest, inputs, index[k], index[i])
  }

  lemma FirstOfRun(digest: seq<byte> -> nat, inputs: seq<Input>, index: seq<nat>, i: nat, j: nat)
    requires Index(digest, inputs, index) && i <= j < |index| && FirstInIndex(digest, inputs, index, i)
    requires SameKey(digest, inputs, index[j], index[i])
    ensures FirstOf(digest, inputs, index[i], index[j]) && (i < j ==> index[i] != index[j])
  {
    forall x: nat | x < |inputs| && !inputs[x].isDir && SameKey(digest, inputs, x, index[j]) ensures index[i] <= x {
      var k :| 0 <= k < |index| && index[k] == x;
      assert SameKey(digest, inputs, index[k], index[i]);
      if k > i {
        assert KeyBefore(digest, inputs, index[i], index[k]);
      }
    }
    if i < j {
      assert KeyBefore(digest, inputs, index[i], index[j]);
    }
  }

  lemma NoneMarked(digest: seq<byte> -> nat, inputs: seq<Input>, index: seq<nat>, duplicate: seq<nat>)
    requires Index(digest, inputs, index) && |duplicate| == |inputs| && forall i :: 0 <= i < |duplicate| ==> duplicate[i] == 0
    ensures MarkedTo(digest, inputs, index, duplicate, 0)
    ensures index != [] ==> FirstInIndex(digest, inputs, index, 0)
  {
  }

  lemma MarkedShape(digest: seq<byte> -> nat, inputs: seq<Input>, index: seq<nat>, duplicate: seq<nat>, n: nat)
    requires MarkedTo(digest, inputs, index, duplicate, n)
    ensures |duplicate| == |inputs|
    ensures forall k :: 0 <= k < |index| ==> index[k] < |inputs|
  {
  }

  /** The next file of a run is marked if it repeats the first one. */
  lemma MarkNext(digest: seq<byte> -> nat, inputs: seq<Input>, index: seq<nat>, was: seq<nat>, duplicate: seq<nat>, first: nat, j: nat)
    requires MarkedTo(digest, inputs, index, was, j) && j < |index| && FirstOf(digest, inputs, first, index[j])
    requires duplicate == if first != index[j] && inputs[first].data == inputs[index[j]].data then was[index[j] := first + 1] else was
    ensures MarkedTo(digest, inputs, index, duplicate, j + 1)
  {
    hide FirstOf, SameKey;
    forall k | 0 <= k < |index| && k != j ensures index[k] != index[j] {
      assert k < j ==> KeyBefore(digest, inputs, index[k], index[j]);
      assert k > j ==> KeyBefore(digest, inputs, index[j], index[k]);
    }
    forall k | 0 <= k < j ensures MarkedAt(digest, inputs, duplicate, index[k]) {
      assert MarkedAt(digest, inputs, was, index[k]);
    }
  }

  lemma Between(digest: seq<byte> -> nat, inputs: seq<Input>, index: seq<nat>, k: nat, m: nat, j: nat)
    requires Index(digest, inputs, index) && k <= m < j < |index| && SameKey(digest, inputs, index[k], index[j])
    ensures SameKey(digest, inputs, index[m], index[j])
  {
    assert k < m ==> KeyBefore(digest, inputs, index[k], index[m]);
    assert KeyBefore(digest, inputs, index[m], index[j]);
  }

  lemma NextRun(digest: seq<byte> -> nat, inputs: seq<Input>, index: seq<nat>, i: nat, j: nat)
    requires Index(digest, inputs, index) && i < j < |index|
    requires SameKey(digest, inputs, index[j - 1], index[i]) && !SameKey(digest, inputs, index[j], index[i])
    ensures FirstInIndex(digest, inputs, index, j)
  {
    forall k | 0 <= k < j ensures !SameKey(digest, inputs, index[k], index[j]) {
      if SameKey(digest, inputs, index[k], index[j]) {
        Between(digest, inputs, index, k, j - 1, j);
      }
    }
  }

  lemma AllMarked(digest: seq<byte> -> nat, inputs: seq<Input>, index: seq<nat>, duplicate: seq<nat>)
    requires MarkedTo(digest, inputs, index, duplicate, |index|)
    ensures |duplicate| == |inputs|
    ensures forall i: nat :: i < |inputs| && !inputs[i].isDir ==> MarkedAt(digest, inputs, duplicate, i)
    ensures forall i :: 0 <= i < |inputs| && inputs[i].isDir ==> duplicate[i] == 0
  {
    hide MarkedAt, KeyBefore;
    forall i: nat | i < |inputs| && !inputs[i].isDir ensures MarkedAt(digest, inputs, duplicate, i) {
      var k :| 0 <= k < |index| && index[k] == i;
    }
  }

  // ----- shapes -----

  lemma NoGroups(chunks: seq<Chunk>, master: seq<nat>)
    ensures ByChunks(chunks, master, [])
  {
  }

  lemma GroupedShape(inputs: seq<Input>, master: seq<nat>, masters: seq<Master>)
    requires Grouped(inputs, master, masters)
    ensures |inputs| == |master|
  {
  }

  lemma InIndex(inputs: seq<Input>, duplicate: seq<nat>, chunks: seq<Chunk>, ids: seq<nat>, hash: nat)
    requires ChunkIndex(inputs, duplicate, chunks) && forall k :: 0 <= k < |ids| ==> Chunk(hash, ids[k]) in chunks
    ensures forall k :: 0 <= k < |ids| ==> ids[k] < |duplicate| && duplicate[ids[k]] == 0
  {
  }

  lemma KeysTotal(digest: seq<byte> -> nat, inputs: seq<Input>)
    ensures Total((a: nat, b: nat) => KeyBefore(digest, inputs, a, b))
  {
  }

  lemma ChunksTotal()
    ensures Total(ChunkBefore) && forall c :: ChunkBefore(c, c)
  {
  }

  // ----- the archive's files -----

  /** Every file once, sorted by size, digest and position. */
  method FileIndex(inputs: seq<Input>, digest: seq<byte> -> nat) returns (index: seq<nat>)
    ensures Index(digest, inputs, index)
  {
    hide KeyBefore;
    var files: seq<nat> := [];
    for i := 0 to |inputs|
      invariant forall k :: 0 <= k < |files| ==> files[k] < i && !inputs[files[k]].isDir
      invariant forall x: nat :: x < i && !inputs[x].isDir ==> x in files
      invariant forall j, k :: 0 <= j < k < |files| ==> files[j] != files[k]
    {
      if !inputs[i].isDir {
        files := files + [i];
      }
    }
    index := Sorted((a: nat, b: nat) => KeyBefore(digest, inputs, a, b), files);
    KeysTotal(digest, inputs);
    SortedOrder((a: nat, b: nat) => KeyBefore(digest, inputs, a, b), files);
    SortedMembers((a: nat, b: nat) => KeyBefore(digest, inputs, a, b), files);
    forall k | 0 <= k < |index| ensures index[k] < |inputs| && !inputs[index[k]].isDir {
      assert index[k] in index;
    }
  }

  const SMALLEST := 1024

  /** One of the chunks of the data has the hash. */
  ghost predicate HasChunk(gear: byte -> nat, hash: seq<byte> -> nat, data: seq<byte>, h: nat)
  {
    exists piece :: piece in Chunking.Chunks(Chunking.Init(gear, 12, 0, 0), data) && hash(piece) == h
  }

  ghost predicate RealChunks(gear: byte -> nat, hash: seq<byte> -> nat, inputs: seq<Input>, chunks: seq<Chunk>)
  {
    forall k :: 0 <= k < |chunks| ==> chunks[k].file < |inputs| && HasChunk(gear, hash, inputs[chunks[k].file].data, chunks[k].hash)
  }

  /** The files whose chunks are looked at. */
  predicate Indexed(inputs: seq<Input>, duplicate: seq<nat>, i: nat)
    requires |inputs| == |duplicate|
  {
    i < |inputs| && !inputs[i].isDir && duplicate[i] == 0 && |inputs[i].data| >= SMALLEST
  }

  /** Every chunk of the first n files that are looked at is there. */
  ghost predicate AllChunks(gear: byte -> nat, hash: seq<byte> -> nat, inputs: seq<Input>, duplicate: seq<nat>, chunks: seq<Chunk>, n: nat)
    requires |inputs| == |duplicate|
  {
    forall i: nat, h :: i < n && Indexed(inputs, duplicate, i) && HasChunk(gear, hash, inputs[i].data, h) ==> Chunk(h, i) in chunks
  }

  lemma PiecesIndexed(gear: byte -> nat, hash: seq<byte> -> nat, inputs: seq<Input>, duplicate: seq<nat>, before: seq<Chunk>,
                      found: seq<Chunk>, pieces: seq<seq<byte>>, i: nat)
    requires |inputs| == |duplicate| && i < |inputs| && AllChunks(gear, hash, inputs, duplicate, before, i)
    requires pieces == Chunking.Chunks(Chunking.Init(gear, 12, 0, 0), inputs[i].data)
    requires (forall c :: c in before ==> c in found) && forall j :: 0 <= j < |pieces| ==> Chunk(hash(pieces[j]), i) in found
    ensures AllChunks(gear, hash, inputs, duplicate, found, i + 1)
  {
    forall x: nat, h | x < i + 1 && Indexed(inputs, duplicate, x) && HasChunk(gear, hash, inputs[x].data, h)
      ensures Chunk(h, x) in found
    {
      if x == i {
        var piece :| piece in pieces && hash(piece) == h;
        var j :| 0 <= j < |pieces| && pieces[j] == piece;
      }
    }
  }

  /** Only files before n that are no directories and no repetitions. */
  ghost predicate OfFiles(inputs: seq<Input>, duplicate: seq<nat>, found: seq<Chunk>, n: nat)
    requires |inputs| == |duplicate|
  {
    forall k :: 0 <= k < |found| ==>
      found[k].file < n && found[k].file < |inputs| && !inputs[found[k].file].isDir && duplicate[found[k].file] == 0
  }

  lemma MoreFiles(inputs: seq<Input>, duplicate: seq<nat>, found: seq<Chunk>, i: nat)
    requires |inputs| == |duplicate| && OfFiles(inputs, duplicate, found, i)
    ensures OfFiles(inputs, duplicate, found, i + 1)
  {
  }

  lemma OneMoreChunk(gear: byte -> nat, hash: seq<byte> -> nat, inputs: seq<Input>, duplicate: seq<nat>, found: seq<Chunk>, h: nat, i: nat)
    requires |inputs| == |duplicate| && i < |inputs| && !inputs[i].isDir && duplicate[i] == 0
    requires RealChunks(gear, hash, inputs, found) && OfFiles(inputs, duplicate, found, i + 1) && HasChunk(gear, hash, inputs[i].data, h)
    ensures RealChunks(gear, hash, inputs, found + [Chunk(h, i)]) && OfFiles(inputs, duplicate, found + [Chunk(h, i)], i + 1)
  {
    hide HasChunk;
  }

  /** The chunks of one file. */
  method IndexFile(inputs: seq<Input>, ghost duplicate: seq<nat>, before: seq<Chunk>, i: nat, gear: byte -> nat, hash: seq<byte> -> nat)
    returns (found: seq<Chunk>)
    requires |inputs| == |duplicate| && i < |inputs| && !inputs[i].isDir && duplicate[i] == 0
    requires RealChunks(gear, hash, inputs, before) && OfFiles(inputs, duplicate, before, i)
    requires AllChunks(gear, hash, inputs, duplicate, before, i)
    ensures RealChunks(gear, hash, inputs, found) && OfFiles(inputs, duplicate, found, i + 1)
    ensures AllChunks(gear, hash, inputs, duplicate, found, i + 1)
  {
    hide HasChunk, AllChunks, RealChunks, OfFiles;
    found := before;
    MoreFiles(inputs, duplicate, before, i);
    var pieces := Chunking.ChunkFile(inputs[i].data, gear);
    for j := 0 to |pieces|
      invariant RealChunks(gear, hash, inputs, found) && OfFiles(inputs, duplicate, found, i + 1)
      invariant (forall c :: c in before ==> c in found) && forall q :: 0 <= q < j ==> Chunk(hash(pieces[q]), i) in found
    {
      PieceIsChunk(gear, hash, inputs[i].data, pieces[j]);
      OneMoreChunk(gear, hash, inputs, duplicate, found, hash(pieces[j]), i);
      found := found + [Chunk(hash(pieces[j]), i)];
    }
    PiecesIndexed(gear, hash, inputs, duplicate, before, found, pieces, i);
  }

  /** The chunks of all files that are not repetitions and have at least 1024 bytes, sorted by hash and file. */
  method IndexChunks(inputs: seq<Input>, duplicate: array<nat>, gear: byte -> nat, hash: seq<byte> -> nat) returns (chunks: seq<Chunk>)
    requires duplicate.Length == |inputs|
    ensures ChunkIndex(inputs, duplicate[..], chunks) && RealChunks(gear, hash, inputs, chunks)
    ensures AllChunks(gear, hash, inputs, duplicate[..], chunks, |inputs|)
  {
    hide HasChunk, AllChunks;
    ghost var dup := duplicate[..];
    var found: seq<Chunk> := [];
    NothingIndexed(gear, hash, inputs, dup);
    for i := 0 to |inputs|
      invariant RealChunks(gear, hash, inputs, found) && AllChunks(gear, hash, inputs, dup, found, i)
      invariant OfFiles(inputs, dup, found, i)
    {
      if !inputs[i].isDir && duplicate[i] == 0 && |inputs[i].data| >= SMALLEST {
        found := IndexFile(inputs, dup, found, i, gear, hash);
      } else {
        NotIndexed(gear, hash, inputs, dup, found, i);
      }
    }
    chunks := Sorted(ChunkBefore, found);
    ChunksTotal();
    SortedOrder(ChunkBefore, found);
    SortedMembers(ChunkBefore, found);
    SameIndexed(gear, hash, inputs, dup, found, chunks);
    forall k | 0 <= k < |chunks|
      ensures chunks[k].file < |inputs| && !inputs[chunks[k].file].isDir && dup[chunks[k].file] == 0
      ensures HasChunk(gear, hash, inputs[chunks[k].file].data, chunks[k].hash)
    {
      assert chunks[k] in chunks;
      var q :| 0 <= q < |found| && found[q] == chunks[k];
    }
  }

  lemma NothingIndexed(gear: byte -> nat, hash: seq<byte> -> nat, inputs: seq<Input>, duplicate: seq<nat>)
    requires |inputs| == |duplicate|
    ensures AllChunks(gear, hash, inputs, duplicate, [], 0)
  {
  }

  lemma NotIndexed(gear: byte -> nat, hash: seq<byte> -> nat, inputs: seq<Input>, duplicate: seq<nat>, found: seq<Chunk>, i: nat)
    requires |inputs| == |duplicate| && AllChunks(gear, hash, inputs, duplicate, found, i) && !Indexed(inputs, duplicate, i)
    ensures AllChunks(gear, hash, inputs, duplicate, found, i + 1)
  {
    hide HasChunk;
  }

  lemma SameIndexed(gear: byte -> nat, hash: seq<byte> -> nat, inputs: seq<Input>, duplicate: seq<nat>, found: seq<Chunk>, chunks: seq<Chunk>)
    requires |inputs| == |duplicate| && AllChunks(gear, hash, inputs, duplicate, found, |inputs|)
    requires forall c :: c in chunks <==> c in found
    ensures AllChunks(gear, hash, inputs, duplicate, chunks, |inputs|)
  {
    hide HasChunk;
  }

  lemma PieceIsChunk(gear: byte -> nat, hash: seq<byte> -> nat, data: seq<byte>, piece: seq<byte>)
    requires piece in Chunking.Chunks(Chunking.Init(gear, 12, 0, 0), data)
    ensures HasChunk(gear, hash, data, hash(piece))
  {
  }

  /** All files of a master that are not repetitions have a chunk with one hash in common. */
  ghost predicate InCommon(gear: byte -> nat, hash: seq<byte> -> nat, inputs: seq<Input>, duplicate: seq<nat>, master: seq<nat>,
                           m: nat, h: nat)
    requires |inputs| == |duplicate| == |master|
  {
    forall i :: 0 <= i < |inputs| && duplicate[i] == 0 && master[i] == m ==> HasChunk(gear, hash, inputs[i].data, h)
  }

  ghost predicate SharedGroup(gear: byte -> nat, hash: seq<byte> -> nat, inputs: seq<Input>, duplicate: seq<nat>, master: seq<nat>, m: nat)
    requires |inputs| == |duplicate| == |master|
  {
    && 2 <= Firsts(duplicate, master, m) <= GROUP_MAX
    && exists h :: InCommon(gear, hash, inputs, duplicate, master, m, h)
                   && (Firsts(duplicate, master, m) == GROUP_MAX || NoneLater(gear, hash, inputs, duplicate, master, m, h))
  }

  /** No file with a chunk of this hash got a later master. */
  ghost predicate NoneLater(gear: byte -> nat, hash: seq<byte> -> nat, inputs: seq<Input>, duplicate: seq<nat>, master: seq<nat>,
                            m: nat, h: nat)
    requires |inputs| == |duplicate| == |master|
  {
    forall i: nat :: Indexed(inputs, duplicate, i) && HasChunk(gear, hash, inputs[i].data, h) ==> 0 < master[i] <= m
  }

  /** No two files with this master, both of at least 1024 bytes and no repetitions, have a chunk's hash in common. */
  ghost predicate NothingInCommon(gear: byte -> nat, hash: seq<byte> -> nat, inputs: seq<Input>, duplicate: seq<nat>, master: seq<nat>, m: nat)
    requires |inputs| == |duplicate| == |master|
  {
    forall i: nat, j: nat, h ::
      WithChunk(gear, hash, inputs, duplicate, master, m, i, h) && WithChunk(gear, hash, inputs, duplicate, master, m, j, h) ==> i == j
  }

  ghost predicate WithChunk(gear: byte -> nat, hash: seq<byte> -> nat, inputs: seq<Input>, duplicate: seq<nat>, master: seq<nat>,
                            m: nat, i: nat, h: nat)
    requires |inputs| == |duplicate| == |master|
  {
    Indexed(inputs, duplicate, i) && master[i] == m && HasChunk(gear, hash, inputs[i].data, h)
  }

  lemma ReallyNothingShared(gear: byte -> nat, hash: seq<byte> -> nat, inputs: seq<Input>, duplicate: seq<nat>, chunks: seq<Chunk>,
                            master: seq<nat>, m: nat)
    requires |inputs| == |duplicate| == |master| && AllChunks(gear, hash, inputs, duplicate, chunks, |inputs|)
    requires NothingShared(chunks, master, m)
    ensures NothingInCommon(gear, hash, inputs, duplicate, master, m)
  {
    hide HasChunk;
    forall i: nat, j: nat, h
      | WithChunk(gear, hash, inputs, duplicate, master, m, i, h) && WithChunk(gear, hash, inputs, duplicate, master, m, j, h)
      ensures i == j
    {
      var p :| 0 <= p < |chunks| && chunks[p] == Chunk(h, i);
      var q :| 0 <= q < |chunks| && chunks[q] == Chunk(h, j);
      assert UnlessBoth(chunks, master, m, p, q);
    }
  }

  lemma ReallyShared(gear: byte -> nat, hash: seq<byte> -> nat, inputs: seq<Input>, duplicate: seq<nat>, chunks: seq<Chunk>,
                     master: seq<nat>, m: nat)
    requires |inputs| == |duplicate| == |master| && RealChunks(gear, hash, inputs, chunks) && ShareSome(duplicate, chunks, master, m)
    requires AllChunks(gear, hash, inputs, duplicate, chunks, |inputs|)
    ensures SharedGroup(gear, hash, inputs, duplicate, master, m)
  {
    hide HasChunk, Firsts;
    var h :| SharesOnce(duplicate, chunks, master, m, h)
             && (Firsts(duplicate, master, m) == GROUP_MAX || TakesAll(chunks, master, m, h));
    forall i: nat | i < |inputs| && duplicate[i] == 0 && master[i] == m ensures HasChunk(gear, hash, inputs[i].data, h) {
      assert Chunk(h, i) in chunks;
    }
    assert InCommon(gear, hash, inputs, duplicate, master, m, h);
    assert TakesAll(chunks, master, m, h) ==> NoneLater(gear, hash, inputs, duplicate, master, m, h);
  }

  /**
    * From the spooled files to their masters: repeated files are found, the others are cut into chunks, and files that share
    * one are grouped. Every file gets exactly one master, and every master but perhaps the last is of 2 to 256 files with a
    * chunk's hash in common, and their repetitions. If the last is not, no two of its files of at least 1024 bytes that are
    * no repetitions have one in common.
    */
  method Arrange(inputs: seq<Input>, digest: seq<byte> -> nat, gear: byte -> nat, hash: seq<byte> -> nat) returns (w: Writer)
    ensures fresh(w) && w.inputs == inputs && w.Valid() && |w.masters| <= FileCount(inputs)
    ensures forall i :: 0 <= i < |inputs| ==> (w.master[i] == 0 <==> inputs[i].isDir)
    ensures forall i: nat :: i < |inputs| && !inputs[i].isDir ==> MarkedAt(digest, inputs, w.duplicate[..], i)
    ensures forall i :: 0 <= i < |inputs| && 0 < w.duplicate[i] <= |inputs| ==> w.master[i] == w.master[w.duplicate[i] - 1]
    ensures forall m: nat :: FIRST_MASTER <= m < |w.masters| + FIRST_MASTER - 1 ==>
              SharedGroup(gear, hash, inputs, w.duplicate[..], w.master[..], m)
    ensures var last := |w.masters| + FIRST_MASTER - 1;
            w.masters == [] || SharedGroup(gear, hash, inputs, w.duplicate[..], w.master[..], last)
            || NothingInCommon(gear, hash, inputs, w.duplicate[..], w.master[..], last)
  {
    hide MarkedAt, Index, ChunkIndex, RealChunks, Grouped, Originals, ShareSome, SharedGroup, AllChunks, NothingShared, NothingInCommon;
    w := new Writer(inputs);
    GroupedShape(inputs, w.master[..], w.masters);
    var index := FileIndex(inputs, digest);
    ghost var master := w.master[..];
    w.MarkDuplicates(index, digest);
    assert w.master[..] == master;
    var chunks := IndexChunks(inputs, w.duplicate, gear, hash);
    ghost var duplicate := w.duplicate[..];
    w.Group(chunks);
    GroupedShape(inputs, w.master[..], w.masters);
    forall m: nat | FIRST_MASTER <= m < |w.masters| + FIRST_MASTER - 1
      ensures SharedGroup(gear, hash, inputs, w.duplicate[..], w.master[..], m)
    {
      ReallyShared(gear, hash, inputs, duplicate, chunks, w.master[..], m);
    }
    if w.masters != [] {
      var last: nat := |w.masters| + FIRST_MASTER - 1;
      if ShareSome(duplicate, chunks, w.master[..], last) {
        ReallyShared(gear, hash, inputs, duplicate, chunks, w.master[..], last);
      } else {
        ReallyNothingShared(gear, hash, inputs, duplicate, chunks, w.master[..], last);
      }
    }
  }
}
