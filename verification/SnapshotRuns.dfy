/** Whole runs of a snapshot repository: commands one after the other, each durable state of each of them. */
module SnapshotRuns {
  import opened BitStrings
  import opened Options
  import opened Snapshots
  import opened SnapshotRepo

  datatype Command =
    | Take(sources: seq<Source>, created: int, name: string)
    | PruneTo(keepLast: nat, keep: set<Digest>, apply: bool)
    | Pack
    | RepairFrom(donor: Repository, addresses: seq<Digest>)

  /** How many visible snapshots are newer than a given one. */
  ghost function Rank(s: Store, a: Digest): nat
    requires StoreOk(s) && a in Active(s).snaps
  {
    |NewerOnes(Active(s).snaps, Active(s).snaps.Keys, a)|
  }

  /** Only an applied prune that neither names a snapshot nor keeps more than the newer ones can remove it. */
  predicate MayDrop(c: Command, a: Digest, rank: nat)
  {
    c.PruneTo? && c.apply && a !in c.keep && c.keepLast <= rank
  }

  /** How many snapshots a command can add. */
  function Adds(c: Command): nat
  {
    match c
    case Take(_, _, _) => 1
    case PruneTo(_, _, _) => 0
    case Pack => 0
    case RepairFrom(_, addresses) => |addresses|
  }

  function AddsAll(cs: seq<Command>): nat
  {
    if cs == [] then 0 else AddsAll(cs[..|cs| - 1]) + Adds(cs[|cs| - 1])
  }

  /** None of the commands can drop a snapshot that starts with so many newer ones. */
  ghost predicate Spared(cs: seq<Command>, a: Digest, rank: nat)
  {
    forall i :: 0 <= i < |cs| ==> !MayDrop(cs[i], a, rank + AddsAll(cs[..i]))
  }

  lemma SparedHere(cs: seq<Command>, i: nat, a: Digest, rank: nat, now: nat)
    requires i < |cs| && Spared(cs, a, rank) && now <= rank + AddsAll(cs[..i])
    ensures !MayDrop(cs[i], a, now)
    ensures now + Adds(cs[i]) <= rank + AddsAll(cs[..i + 1])
  {
    assert cs[..i + 1][..i] == cs[..i];
  }

  /** Restoring the snapshot gives the sources. */
  ghost predicate RestoresTo(h: Hashes, s: Store, a: Digest, sources: seq<Source>)
  {
    StoreOk(s) && Readable(h, Active(s), a) && Files(h, Active(s), Active(s).snaps[a].entries) == Some(sources)
  }

  lemma StepRestores(h: Hashes, s: Store, s': Store, a: Digest, sources: seq<Source>)
    requires MayHappen(h, s, s') && RestoresTo(h, s, a, sources)
    ensures StoreOk(s') && (a in Active(s').snaps ==> RestoresTo(h, s', a, sources))
  {
    hide MayHappen, Files;
    StepKeeps(h, s, s', a);
  }

  /** A run that never removes the snapshot keeps what it restores to. */
  lemma {:induction false} RunRestores(h: Hashes, run: seq<Store>, a: Digest, sources: seq<Source>, i: nat)
    requires Run(h, run) && i < |run| && RestoresTo(h, run[0], a, sources)
    requires forall k :: 0 <= k < |run| ==> StoreOk(run[k]) && a in Active(run[k]).snaps
    ensures RestoresTo(h, run[i], a, sources)
  {
    hide MayHappen, RestoresTo, Active, StoreOk;
    if i > 0 {
      RunRestores(h, run, a, sources, i - 1);
      StepRestores(h, run[i - 1], run[i], a, sources);
    }
  }

  // ----- one command -----

  /** Every new durable state is one the command may leave; a snapshot the command does not drop stays. */
  ghost predicate Steps(h: Hashes, c: Command, s: Store, states: seq<Store>)
  {
    forall k :: 0 <= k < |states| ==> StepOf(h, c, s, states[k])
  }

  ghost predicate StepOf(h: Hashes, c: Command, s: Store, s': Store)
  {
    && MayHappen(h, s, s')
    && forall a, sources :: RestoresTo(h, s, a, sources) && !MayDrop(c, a, Rank(s, a)) ==> RestoresTo(h, s', a, sources)
  }

  lemma CreateStep(h: Hashes, c: Command, s: Store, s': Store)
    requires MayCreate(h, s, s')
    ensures StepOf(h, c, s, s')
  {
    hide MayCreate, Readable, Files;
    forall a, sources | RestoresTo(h, s, a, sources) ensures RestoresTo(h, s', a, sources) {
      StepRestores(h, s, s', a, sources);
      CreateKeeps(h, s, s', a);
      VisibleAfter(h, s, a, sources);
    }
  }

  lemma CompactStep(h: Hashes, c: Command, s: Store, s': Store)
    requires MayCompact(s, s')
    ensures StepOf(h, c, s, s')
  {
    hide MayCompact, Readable, Files;
    forall a, sources | RestoresTo(h, s, a, sources) ensures RestoresTo(h, s', a, sources) {
      StepRestores(h, s, s', a, sources);
      CompactKeeps(h, s, s', a);
      VisibleAfter(h, s, a, sources);
    }
  }

  lemma RepairStep(h: Hashes, c: Command, s: Store, s': Store)
    requires MayRepair(h, s, s')
    ensures StepOf(h, c, s, s')
  {
    hide MayRepair, Readable, Files;
    forall a, sources | RestoresTo(h, s, a, sources) ensures RestoresTo(h, s', a, sources) {
      StepRestores(h, s, s', a, sources);
      RepairKeeps(h, s, s', a);
    }
  }

  lemma PruneStep(h: Hashes, c: Command, s: Store, s': Store, retained: set<Digest>)
    requires MayPrune(s, s', retained) && c.PruneTo? && c.apply && retained == Retained(Active(s).snaps, c.keep, c.keepLast)
    ensures StepOf(h, c, s, s')
  {
    hide MayPrune, Files, NewerOnes, Latest;
    forall a, sources | RestoresTo(h, s, a, sources) && !MayDrop(c, a, Rank(s, a)) ensures RestoresTo(h, s', a, sources) {
      StepRestores(h, s, s', a, sources);
      PruneKeeps(h, s, s', retained, a);
      LatestIff(Active(s).snaps, Active(s).snaps.Keys, c.keepLast, a);
    }
  }

  lemma VisibleAfter(h: Hashes, s: Store, a: Digest, sources: seq<Source>)
    requires RestoresTo(h, s, a, sources)
    ensures StoreOk(s) && a in Active(s).snaps
  {
  }

  ghost predicate Ready(r: Repository, c: Command)
    reads r, if c.RepairFrom? then {c.donor} else {}
  {
    r.Logged() && (c.RepairFrom? ==> CollisionFree(r.h) && c.donor != r && c.donor.Logged() && c.donor.h == r.h)
  }

  method Perform(r: Repository, c: Command, gear: byte -> nat)
    requires Ready(r, c)
    modifies r
    ensures r.Logged() && old(r.history) <= r.history && Steps(r.h, c, old(r.disk), r.history[|old(r.history)|..])
    ensures AddedFew(Active(old(r.disk)).snaps, Active(r.disk).snaps, Adds(c))
  {
    hide StepOf, MayCreate, MayCompact, MayRepair, MayPrune, Readable, Files, Retained, CollisionFree, Intact, AddedFew, Live, OthersSame;
    ghost var s, from := r.disk, |r.history|;
    match c
    case Take(sources, created, name) =>
      var a := r.Create(sources, created, name, gear);
      TakenFew(Active(s).snaps, Active(r.disk).snaps, a);
      forall k | from <= k < |r.history| ensures StepOf(r.h, c, s, r.history[k]) {
        CreateStep(r.h, c, s, r.history[k]);
      }
    case PruneTo(keepLast, keep, apply) =>
      var retained := r.Prune(keepLast, keep, apply);
      forall k | from <= k < |r.history| ensures StepOf(r.h, c, s, r.history[k]) {
        PruneStep(r.h, c, s, r.history[k], retained.value);
      }
      PrunedFew(Active(s), Active(r.disk), retained);
    case Pack =>
      var _ := r.Compact();
      forall k | from <= k < |r.history| ensures StepOf(r.h, c, s, r.history[k]) {
        CompactStep(r.h, c, s, r.history[k]);
      }
      NoneAdded(Active(s).snaps);
    case RepairFrom(donor, addresses) =>
      var _ := r.Repair(donor, addresses);
      forall k | from <= k < |r.history| ensures StepOf(r.h, c, s, r.history[k]) {
        RepairStep(r.h, c, s, r.history[k]);
      }
      RepairedFew(Active(s).snaps, Active(r.disk).snaps, addresses);
  }

  // ----- how many snapshots a command adds -----

  /** All but n snapshots were there before. */
  ghost predicate AddedFew(x: map<Digest, Manifest>, y: map<Digest, Manifest>, n: nat)
  {
    exists added: set<Digest> :: |added| <= n && OldOr(x, y, added)
  }

  ghost predicate OldOr(x: map<Digest, Manifest>, y: map<Digest, Manifest>, added: set<Digest>)
  {
    forall b :: b in y && b !in added ==> b in x && y[b] == x[b]
  }

  lemma NoneAdded(x: map<Digest, Manifest>)
    ensures AddedFew(x, x, 0)
  {
    assert OldOr(x, x, {});
  }

  lemma TakenFew(x: map<Digest, Manifest>, y: map<Digest, Manifest>, a: Option<Digest>)
    requires if a.Some? then a.value in y && y == x[a.value := y[a.value]] else y == x
    ensures AddedFew(x, y, 1)
  {
    var added := if a.Some? then {a.value} else {};
    assert OldOr(x, y, added);
  }

  lemma PrunedFew(x: Shelf, y: Shelf, retained: Option<set<Digest>>)
    requires y == x || (retained.Some? && y == PrunedShelf(x, retained.value))
    ensures AddedFew(x.snaps, y.snaps, 0)
  {
    assert OldOr(x.snaps, y.snaps, {});
  }

  lemma RepairedFew(x: map<Digest, Manifest>, y: map<Digest, Manifest>, addresses: seq<Digest>)
    requires OthersSame(x, y, addresses)
    ensures AddedFew(x, y, |addresses|)
  {
    var added := Elements(addresses);
    ElementsFew(addresses);
    assert OldOr(x, y, added);
  }

  lemma {:induction false} ElementsFew(s: seq<Digest>)
    ensures |Elements(s)| <= |s|
  {
    if s == [] {
      assert Elements(s) == {};
    } else {
      var n := |s| - 1;
      ElementsFew(s[..n]);
      assert s == s[..n] + [s[n]];
      assert Elements(s) == Elements(s[..n]) + {s[n]};
    }
  }

  /** A snapshot that stays gets at most that many newer ones. */
  lemma RankGrows(s: Store, s': Store, a: Digest, n: nat)
    requires StoreOk(s) && StoreOk(s') && AddedFew(Active(s).snaps, Active(s').snaps, n)
    requires a in Active(s).snaps && a in Active(s').snaps && Active(s).snaps[a] == Active(s').snaps[a]
    ensures Rank(s', a) <= Rank(s, a) + n
  {
    var x, y := Active(s).snaps, Active(s').snaps;
    var added :| |added| <= n && OldOr(x, y, added);
    var before := NewerOnes(x, x.Keys, a);
    assert NewerOnes(y, y.Keys, a) <= before + added;
    SubsetSize(NewerOnes(y, y.Keys, a), before + added);
  }

  lemma {:induction false} SubsetSize(a: set<Digest>, b: set<Digest>)
    requires a <= b
    ensures |a| <= |b|
    decreases |a|
  {
    if a != {} {
      var x :| x in a;
      SubsetSize(a - {x}, b - {x});
    }
  }

  // ----- any number of commands -----

  lemma SoundSteps(h: Hashes, c: Command, s: Store, states: seq<Store>)
    requires Steps(h, c, s, states) && Sound(h, s)
    ensures forall k :: 0 <= k < |states| ==> Sound(h, states[k])
  {
    hide MayHappen, Sound;
    forall k | 0 <= k < |states| ensures Sound(h, states[k]) {
      assert StepOf(h, c, s, states[k]);
      SoundStep(h, s, states[k]);
    }
  }

  /**
    * Commands one after the other: every durable state is sound, and a snapshot none of them drops restores to the same
    * in each. A prune cannot drop it that keeps more than the snapshots that were newer and those added since.
    */
  method PerformAll(r: Repository, cs: seq<Command>, gear: byte -> nat, ghost a: Digest, ghost sources: seq<Source>)
    requires forall i :: 0 <= i < |cs| ==> Ready(r, cs[i])
    requires r.Logged()
    modifies r
    ensures r.Logged() && old(r.history) <= r.history
    ensures Sound(r.h, old(r.disk)) ==> forall k :: |old(r.history)| <= k < |r.history| ==> Sound(r.h, r.history[k])
    ensures RestoresTo(r.h, old(r.disk), a, sources) && Spared(cs, a, Rank(old(r.disk), a)) ==>
              RestoresTo(r.h, r.disk, a, sources)
              && forall k :: |old(r.history)| <= k < |r.history| ==> RestoresTo(r.h, r.history[k], a, sources)
  {
    hide Sound, RestoresTo, CollisionFree, MayDrop, MayHappen, Rank, Spared, AddedFew, AddsAll;
    ghost var before := r.history;
    ghost var sound := Sound(r.h, r.disk);
    ghost var rank := RankOf(r.h, r.disk, a, sources);
    ghost var kept := RestoresTo(r.h, r.disk, a, sources) && Spared(cs, a, rank);
    for i := 0 to |cs|
      invariant r.Logged() && before <= r.history && forall j :: i <= j < |cs| ==> Ready(r, cs[j])
      invariant sound ==> Sound(r.h, r.disk) && forall k :: |before| <= k < |r.history| ==> Sound(r.h, r.history[k])
      invariant kept ==> RestoresTo(r.h, r.disk, a, sources)
                         && forall k :: |before| <= k < |r.history| ==> RestoresTo(r.h, r.history[k], a, sources)
      invariant kept ==> RankOf(r.h, r.disk, a, sources) <= rank + AddsAll(cs[..i])
    {
      ghost var s, h0 := r.disk, r.history;
      ghost var now := RankOf(r.h, s, a, sources);
      if kept {
        SparedHere(cs, i, a, rank, now);
      }
      Perform(r, cs[i], gear);
      NewStates(r.h, cs[i], s, h0, r.history, a, sources, sound, kept);
      if kept {
        StillRanked(r.h, s, r.disk, a, sources, Adds(cs[i]));
      }
    }
  }

  ghost function RankOf(h: Hashes, s: Store, a: Digest, sources: seq<Source>): nat
  {
    if RestoresTo(h, s, a, sources) then Rank(s, a) else 0
  }

  lemma StillRanked(h: Hashes, s: Store, s': Store, a: Digest, sources: seq<Source>, n: nat)
    requires RestoresTo(h, s, a, sources) && RestoresTo(h, s', a, sources) && AddedFew(Active(s).snaps, Active(s').snaps, n)
    requires SameSnap(s, s', a)
    ensures RankOf(h, s', a, sources) <= RankOf(h, s, a, sources) + n
  {
    hide Readable, Files, AddedFew, Rank;
    VisibleAfter(h, s, a, sources);
    VisibleAfter(h, s', a, sources);
    RankGrows(s, s', a, n);
  }

  lemma NewStates(h: Hashes, c: Command, s: Store, h0: seq<Store>, h1: seq<Store>, a: Digest, sources: seq<Source>, sound: bool, kept: bool)
    requires h0 != [] && h0 <= h1 && h0[|h0| - 1] == s && Steps(h, c, s, h1[|h0|..])
    requires (sound ==> Sound(h, s)) && (kept ==> RestoresTo(h, s, a, sources) && !MayDrop(c, a, RankOf(h, s, a, sources)))
    ensures forall k :: |h0| - 1 <= k < |h1| ==>
              (sound ==> Sound(h, h1[k])) && (kept ==> RestoresTo(h, h1[k], a, sources) && SameSnap(s, h1[k], a))
  {
    hide Sound, RestoresTo, MayDrop, MayHappen, Rank;
    if sound {
      SoundSteps(h, c, s, h1[|h0|..]);
    }
    forall k | |h0| - 1 <= k < |h1|
      ensures (sound ==> Sound(h, h1[k])) && (kept ==> RestoresTo(h, h1[k], a, sources) && SameSnap(s, h1[k], a))
    {
      if kept {
        VisibleAfter(h, s, a, sources);
      }
      if k >= |h0| {
        assert h1[|h0|..][k - |h0|] == h1[k];
        assert StepOf(h, c, s, h1[k]);
        if kept {
          SnapKept(h, s, h1[k], a, sources);
        }
      }
    }
  }

  ghost predicate SameSnap(s: Store, s': Store, a: Digest)
  {
    && StoreOk(s) && StoreOk(s') && a in Active(s).snaps && a in Active(s').snaps
    && Active(s').snaps[a] == Active(s).snaps[a]
  }

  lemma SnapKept(h: Hashes, s: Store, s': Store, a: Digest, sources: seq<Source>)
    requires MayHappen(h, s, s') && RestoresTo(h, s, a, sources) && RestoresTo(h, s', a, sources)
    ensures SameSnap(s, s', a)
  {
    hide MayHappen, Files;
    StepKeeps(h, s, s', a);
  }

  /** The snapshots a new one would not be newer than. */
  ghost function NotOlder(snaps: map<Digest, Manifest>, created: int): set<Digest>
  {
    set b | b in snaps && snaps[b].created >= created
  }

  lemma RankOfNew(s: Store, s': Store, a: Digest, created: int)
    requires StoreOk(s) && StoreOk(s') && a in Active(s').snaps && Active(s').snaps[a].created == created
    requires Active(s').snaps == Active(s).snaps[a := Active(s').snaps[a]]
    ensures Rank(s', a) <= |NotOlder(Active(s).snaps, created)|
  {
    var y := Active(s').snaps;
    assert NewerOnes(y, y.Keys, a) <= NotOlder(Active(s).snaps, created);
    SubsetSize(NewerOnes(y, y.Keys, a), NotOlder(Active(s).snaps, created));
  }

  lemma SparedLower(cs: seq<Command>, a: Digest, rank: nat, lower: nat)
    requires Spared(cs, a, rank) && lower <= rank
    ensures Spared(cs, a, lower)
  {
  }

  /** The newest snapshot survives every prune that keeps at least one, until another is added. */
  lemma NewestSpared(cs: seq<Command>, snaps: map<Digest, Manifest>, created: int, a: Digest)
    requires forall b :: b in snaps ==> snaps[b].created < created
    requires forall i :: 0 <= i < |cs| ==> Adds(cs[i]) == 0 && (cs[i].PruneTo? ==> cs[i].keepLast >= 1)
    ensures Spared(cs, a, |NotOlder(snaps, created)|)
  {
    assert NotOlder(snaps, created) == {};
    forall i | 0 <= i < |cs| ensures AddsAll(cs[..i]) == 0 {
      NothingAdded(cs[..i]);
    }
  }

  lemma {:induction false} NothingAdded(cs: seq<Command>)
    requires forall i :: 0 <= i < |cs| ==> Adds(cs[i]) == 0
    ensures AddsAll(cs) == 0
  {
    if cs != [] {
      NothingAdded(cs[..|cs| - 1]);
    }
  }

  /**
    * A snapshot taken, any commands and a restore: the sources come back unless a prune keeps no more than the snapshots
    * that were not older and those added since. If it is the newest, every prune that keeps one snapshot keeps it, as
    * long as none is added.
    */
  method TakeRunRestore(r: Repository, sources: seq<Source>, created: int, name: string, cs: seq<Command>, gear: byte -> nat)
    returns (a: Option<Digest>, back: Option<seq<Source>>)
    requires r.Logged() && forall i :: 0 <= i < |cs| ==> Ready(r, cs[i])
    modifies r
    ensures a.Some? && Spared(cs, a.value, |NotOlder(Active(old(r.disk)).snaps, created)|) ==> back == Some(sources)
    ensures CollisionFree(r.h) && Intact(r.h, Active(old(r.disk))) ==> a.Some?
  {
    hide Files, CollisionFree, MayDrop, Sound, MayCreate, Spared, Rank, NotOlder, Intact;
    back := None;
    ghost var s := r.disk;
    a := r.Create(sources, created, name, gear);
    if a.Some? {
      RankOfNew(s, r.disk, a.value, created);
      if Spared(cs, a.value, |NotOlder(Active(s).snaps, created)|) {
        SparedLower(cs, a.value, |NotOlder(Active(s).snaps, created)|, Rank(r.disk, a.value));
      }
      PerformAll(r, cs, gear, a.value, sources);
      back := r.Restore(a.value);
    }
  }

  /** The same over a run of operations that may each be cut off anywhere. */
  method RestoreAfterRun(r: Repository, ghost run: seq<Store>, a: Digest, ghost sources: seq<Source>) returns (back: Option<seq<Source>>)
    requires r.Logged() && Run(r.h, run) && run[|run| - 1] == r.disk && RestoresTo(r.h, run[0], a, sources)
    requires forall k :: 0 <= k < |run| ==> StoreOk(run[k]) && a in Active(run[k]).snaps
    modifies r`work
    ensures back == Some(sources)
  {
    hide Files, MayHappen;
    RunRestores(r.h, run, a, sources, |run| - 1);
    back := r.Restore(a);
  }
}
