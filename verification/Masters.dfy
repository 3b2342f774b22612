/** Resolving the chain of master dictionaries a file needs: any dependency graph, with cycles and missing masters. */
module Masters {
  import opened ErrorCodes
  import opened Options
  import opened BitStrings
  import opened Tally

  const SUPER_MASTER := 0
  const NO_MASTER := 1
  const FIRST_MASTER := 2
  const UNIMPLEMENTED := -6
  const INTERNAL_ERROR := -7
  const SUPER_SIZE := 49152

  /** What the directory says of a master: where it is packed, and which master it was packed against. */
  datatype Info = Info(id: nat, size: nat, offset: nat, packing: nat, parent: nat)

  /** What a decompressor reports: a code, negative for a fault, the bytes written and their checksum. */
  datatype Unpacked = Unpacked(code: int, out: seq<byte>, csum: nat)

  datatype Archive = Archive(infos: seq<Info>, builtin: Unpacked, decode: (Info, seq<byte>) -> Unpacked)

  // ----- what a dictionary is -----

  /** The built-in dictionary, if it unpacks completely with its known checksum. */
  function Super(a: Archive): Option<seq<byte>>
  {
    if a.builtin.code < 0 || |a.builtin.out| != SUPER_SIZE || a.builtin.csum != 0x1E55 then None else Some(a.builtin.out)
  }

  /** The first master with an id, or the number of masters. */
  function Find(infos: seq<Info>, id: nat): (i: nat)
    ensures i <= |infos| && (forall k :: 0 <= k < i ==> infos[k].id != id) && (i < |infos| ==> infos[i].id == id)
  {
    if infos == [] then 0
    else
      var n := |infos| - 1;
      var i := Find(infos[..n], id);
      if i < n || infos[n].id == id then i else |infos|
  }

  function Unpack(a: Archive, m: Info, window: seq<byte>): Option<seq<byte>>
  {
    var u := a.decode(m, window);
    if u.code < 0 || |u.out| != m.size then None else Some(u.out)
  }

  /** The bytes of a dictionary at the end of a chain of at most n masters. */
  function Dict(a: Archive, id: nat, n: nat): Option<seq<byte>>
    decreases n
  {
    if id == SUPER_MASTER then Super(a)
    else if id == NO_MASTER then Some(seq(512, _ => 0))
    else if n == 0 then None
    else
      var i := Find(a.infos, id);
      if i == |a.infos| || a.infos[i].size > 0xFFFF then None
      else
        var window := Dict(a, a.infos[i].parent, n - 1);
        if window.None? then None else Unpack(a, a.infos[i], window.value)
  }

  ghost predicate HasDict(a: Archive, id: nat, d: seq<byte>) { exists n: nat :: Dict(a, id, n) == Some(d) }

  ghost predicate NoDict(a: Archive, id: nat) { forall n: nat :: Dict(a, id, n) == None }

  lemma {:induction false} LongerChain(a: Archive, id: nat, n: nat, n': nat)
    requires n <= n' && Dict(a, id, n).Some?
    ensures Dict(a, id, n') == Dict(a, id, n)
    decreases n
  {
    if id >= FIRST_MASTER {
      LongerChain(a, a.infos[Find(a.infos, id)].parent, n - 1, n' - 1);
    }
  }

  /** An id has at most one dictionary. */
  lemma OneDict(a: Archive, id: nat, d: seq<byte>, n: nat)
    requires HasDict(a, id, d)
    ensures Dict(a, id, n) == None || Dict(a, id, n) == Some(d)
  {
    var m: nat :| Dict(a, id, m) == Some(d);
    if Dict(a, id, n).Some? {
      if m <= n {
        LongerChain(a, id, m, n);
      } else {
        LongerChain(a, id, n, m);
      }
    }
  }

  lemma Known(a: Archive, id: nat, d: seq<byte>)
    requires HasDict(a, id, d)
    ensures !NoDict(a, id)
  {
  }

  /** A master's dictionary from its parent's. */
  lemma FromParent(a: Archive, i: nat, window: seq<byte>)
    requires i < |a.infos| && a.infos[i].id >= FIRST_MASTER && Find(a.infos, a.infos[i].id) == i && a.infos[i].size <= 0xFFFF
    requires HasDict(a, a.infos[i].parent, window)
    ensures var d := Unpack(a, a.infos[i], window); if d.Some? then HasDict(a, a.infos[i].id, d.value) else NoDict(a, a.infos[i].id)
  {
    var m, d := a.infos[i], Unpack(a, a.infos[i], window);
    if d.Some? {
      var n: nat :| Dict(a, m.parent, n) == Some(window);
      assert Dict(a, m.id, n + 1) == d;
    } else {
      forall n: nat ensures Dict(a, m.id, n) == None {
        if n > 0 {
          OneDict(a, m.parent, window, n - 1);
        }
      }
    }
  }

  lemma FromNoParent(a: Archive, i: nat)
    requires i < |a.infos| && a.infos[i].id >= FIRST_MASTER && Find(a.infos, a.infos[i].id) == i && NoDict(a, a.infos[i].parent)
    ensures NoDict(a, a.infos[i].id)
  {
    forall n: nat ensures Dict(a, a.infos[i].id, n) == None {
      if n > 0 {
        assert Dict(a, a.infos[i].parent, n - 1) == None;
      }
    }
  }

  /** A set of masters that only depend on each other has no dictionaries. */
  lemma {:induction false} CycleHasNone(a: Archive, ids: set<nat>, id: nat, n: nat)
    requires id in ids && forall x :: x in ids ==> x >= FIRST_MASTER && DependsOnly(a, x, ids)
    ensures Dict(a, id, n) == None
    decreases n
  {
    hide Find;
    if n > 0 {
      assert DependsOnly(a, id, ids);
      CycleHasNone(a, ids, a.infos[Find(a.infos, id)].parent, n - 1);
    }
  }

  ghost predicate DependsOnly(a: Archive, x: nat, ids: set<nat>)
  {
    Find(a.infos, x) < |a.infos| && a.infos[Find(a.infos, x)].parent in ids
  }

  // ----- a chain of masters -----

  /** Indices of masters, each packed against the next. */
  ghost predicate Chain(infos: seq<Info>, chain: seq<nat>)
  {
    && (forall k :: 0 <= k < |chain| ==> Link(infos, chain[k]))
    && (forall j, k :: 0 <= j < k < |chain| ==> chain[j] != chain[k])
    && (forall k :: 0 < k < |chain| ==> infos[chain[k - 1]].parent == infos[chain[k]].id)
  }

  ghost predicate Link(infos: seq<Info>, i: nat)
  {
    i < |infos| && infos[i].id >= FIRST_MASTER && Find(infos, infos[i].id) == i && infos[i].size <= 0xFFFF
  }

  /** No dictionary at a chain's end, none at its start. */
  lemma {:induction false} NoneUpwards(a: Archive, chain: seq<nat>, k: nat)
    requires Chain(a.infos, chain) && k < |chain| && NoDict(a, a.infos[chain[k]].id)
    ensures NoDict(a, a.infos[chain[0]].id)
  {
    if k > 0 {
      assert Link(a.infos, chain[k - 1]);
      FromNoParent(a, chain[k - 1]);
      NoneUpwards(a, chain, k - 1);
    }
  }

  lemma NoneAtEnd(a: Archive, chain: seq<nat>)
    requires Chain(a.infos, chain) && chain != [] && NoDict(a, a.infos[chain[|chain| - 1]].parent)
    ensures NoDict(a, a.infos[chain[0]].id)
  {
    var last := chain[|chain| - 1];
    assert Link(a.infos, last);
    FromNoParent(a, last);
    NoneUpwards(a, chain, |chain| - 1);
  }

  /** A chain that comes back to one of its masters. */
  lemma NoneInCycle(a: Archive, chain: seq<nat>, j: nat)
    requires Chain(a.infos, chain) && j < |chain| && a.infos[chain[|chain| - 1]].parent == a.infos[chain[j]].id
    ensures NoDict(a, a.infos[chain[0]].id)
  {
    hide Dict, Find, DependsOnly;
    forall k | 0 <= k < |chain| ensures a.infos[chain[k]].id in Ids(a, chain) {
    }
    forall x | x in Ids(a, chain) ensures x >= FIRST_MASTER && DependsOnly(a, x, Ids(a, chain)) {
      var k :| 0 <= k < |chain| && a.infos[chain[k]].id == x;
      NextInCycle(a, chain, j, k);
    }
    forall n: nat ensures Dict(a, a.infos[chain[0]].id, n) == None {
      CycleHasNone(a, Ids(a, chain), a.infos[chain[0]].id, n);
    }
  }

  ghost function Ids(a: Archive, chain: seq<nat>): set<nat>
    requires Chain(a.infos, chain)
  {
    set k | 0 <= k < |chain| :: a.infos[chain[k]].id
  }

  lemma NextInCycle(a: Archive, chain: seq<nat>, j: nat, k: nat)
    requires Chain(a.infos, chain) && j < |chain| && a.infos[chain[|chain| - 1]].parent == a.infos[chain[j]].id && k < |chain|
    ensures a.infos[chain[k]].id >= FIRST_MASTER && DependsOnly(a, a.infos[chain[k]].id, Ids(a, chain))
  {
    assert Link(a.infos, chain[k]);
    if k + 1 < |chain| {
      assert a.infos[chain[k + 1]].id in Ids(a, chain);
    } else {
      assert a.infos[chain[j]].id in Ids(a, chain);
    }
  }

  // ----- the open archive -----

  class MasterInfo {
    const info: Info
    var neededBy: MasterInfo?
    var data: Option<seq<byte>>

    constructor (info: Info)
      ensures this.info == info && neededBy == null && data == None
    {
      this.info, neededBy, data := info, null, None;
    }
  }

  class Context {
    const a: Archive
    const masters: seq<MasterInfo>
    const pcp: bool
    var supermaster: Option<seq<byte>>

    /** The list holds one record for each master. */
    ghost predicate Shape()
    {
      && |masters| == |a.infos| && (forall i :: 0 <= i < |masters| ==> masters[i].info == a.infos[i])
      && (forall i, j :: 0 <= i < j < |masters| ==> masters[i] != masters[j])
    }

    ghost predicate Unlinked()
      reads masters`neededBy
    {
      forall i :: 0 <= i < |masters| ==> masters[i].neededBy == null
    }

    /** A cached dictionary is the master's dictionary, and so is everything it was decoded against. */
    ghost predicate Cached(i: nat)
      requires Shape() && i < |masters|
      reads this`supermaster, masters`data
    {
      masters[i].data.Some? ==> Link(a.infos, i) && Ready(a.infos[i].parent) && HasDict(a, a.infos[i].id, masters[i].data.value)
    }

    /** The dictionary of an id can be used. */
    ghost predicate Ready(id: nat)
      requires Shape()
      reads this`supermaster, masters`data
    {
      supermaster.Some? && (id >= FIRST_MASTER ==> Find(a.infos, id) < |masters| && masters[Find(a.infos, id)].data.Some?)
    }

    ghost predicate Sound()
      requires Shape()
      reads this`supermaster, masters`data
    {
      (supermaster.Some? ==> supermaster == Super(a)) && forall i: nat :: i < |masters| ==> Cached(i)
    }

    ghost predicate Valid()
      reads this, masters
    {
      Shape() && Unlinked() && Sound()
    }

    constructor (a: Archive, masters: seq<MasterInfo>, pcp: bool)
      requires |masters| == |a.infos| && forall i :: 0 <= i < |masters| ==> masters[i].info == a.infos[i]
      requires forall i, j :: 0 <= i < j < |masters| ==> masters[i] != masters[j]
      requires forall i :: 0 <= i < |masters| ==> masters[i].neededBy == null && masters[i].data == None
      ensures this.a == a && this.masters == masters && this.pcp == pcp && Valid()
    {
      this.a, this.masters, this.pcp, supermaster := a, masters, pcp, None;
    }

    /** Searches the list for an id. */
    method FindMaster(id: nat) returns (i: nat)
      requires Shape()
      ensures i == Find(a.infos, id)
    {
      i := 0;
      while i < |masters| && masters[i].info.id != id
        invariant i <= |masters| && forall k :: 0 <= k < i ==> a.infos[k].id != id
      {
        i := i + 1;
      }
      FirstIs(a.infos, id, i);
    }

    // ----- the links of the first pass -----

    /**
      * What the links record: each master of the chain is needed by the one before it; after coming back to the first
      * master, that one is needed by the last.
      */
    ghost predicate Linked(chain: seq<nat>, looped: bool)
      requires Shape()
      reads masters
    {
      && Chain(a.infos, chain) && (looped ==> chain != [])
      && (forall k :: 0 < k < |chain| ==> masters[chain[k]].neededBy == masters[chain[k - 1]])
      && (chain != [] ==> masters[chain[0]].neededBy == if looped then masters[chain[|chain| - 1]] else null)
      && (forall i: nat :: i < |masters| && masters[i].neededBy != null ==> i in chain)
      && (forall k :: 0 <= k < |chain| ==> masters[chain[k]].data == None)
      && (looped ==> a.infos[chain[|chain| - 1]].parent == a.infos[chain[0]].id)
    }

    /** Where the first pass stands: the master it looks for next, and the last one it saw. */
    ghost predicate Walking(chain: seq<nat>, looped: bool, wanted: nat, next: nat, mi: MasterInfo?)
      requires Shape()
      reads masters
    {
      && Linked(chain, looped)
      && (if chain == [] then mi == null && next == wanted
          else a.infos[chain[0]].id == wanted
               && if looped then mi == masters[chain[0]] && next == a.infos[chain[0]].parent
                  else mi == masters[chain[|chain| - 1]] && next == a.infos[chain[|chain| - 1]].parent)
    }

    /** The master found next extends the chain or comes back to its first. */
    lemma StepLinks(chain: seq<nat>, i: nat, wanted: nat, next: nat)
      requires Shape() && Chain(a.infos, chain) && i < |masters| && i !in chain
      requires next >= FIRST_MASTER && i == Find(a.infos, next) && a.infos[i].size <= 0xFFFF
      requires chain != [] ==> a.infos[chain[|chain| - 1]].parent == next
      ensures Chain(a.infos, chain + [i])
    {
      assert Link(a.infos, i);
      var all := chain + [i];
      forall k | 0 <= k < |all| ensures Link(a.infos, all[k]) {
        if k < |chain| {
          assert Link(a.infos, chain[k]);
        }
      }
    }

    /** Nothing to be found: no dictionary for the id that was asked for. */
    lemma MissingBelow(chain: seq<nat>, looped: bool, wanted: nat, next: nat, mi: MasterInfo?)
      requires Shape() && Walking(chain, looped, wanted, next, mi) && next >= FIRST_MASTER
      requires var i := Find(a.infos, next); i == |masters| || a.infos[i].size > 0xFFFF
      ensures NoDict(a, wanted)
    {
      assert NoDict(a, next);
      if looped {
        NoneInCycle(a, chain, 0);
      } else if chain != [] {
        NoneAtEnd(a, chain);
      }
    }

    /** Coming to a master that is already needed by another: a cycle. */
    lemma CircularBelow(chain: seq<nat>, looped: bool, wanted: nat, next: nat, mi: MasterInfo?)
      requires Shape() && Walking(chain, looped, wanted, next, mi) && next >= FIRST_MASTER
      requires var i := Find(a.infos, next); i < |masters| && masters[i].neededBy != null
      ensures NoDict(a, wanted)
    {
      var i := Find(a.infos, next);
      assert i in chain;
      var j :| 0 <= j < |chain| && chain[j] == i;
      NoneInCycle(a, chain, if looped then 0 else j);
    }

    /** After coming back to the first master the walk meets a link. */
    lemma LoopedIsLinked(chain: seq<nat>, wanted: nat, next: nat, mi: MasterInfo?)
      requires Shape() && Walking(chain, true, wanted, next, mi)
      ensures next >= FIRST_MASTER && Find(a.infos, next) < |masters| && masters[Find(a.infos, next)].neededBy != null
    {
      assert Link(a.infos, chain[0]);
      if |chain| > 1 {
        assert Link(a.infos, chain[1]);
        assert a.infos[chain[1 - 1]].parent == a.infos[chain[1]].id;
        assert masters[chain[1]].neededBy == masters[chain[1 - 1]];
      }
    }

    /** A master without a link is new to the chain or is its first. */
    lemma FreshOrFirst(chain: seq<nat>, looped: bool, wanted: nat, next: nat, mi: MasterInfo?)
      requires Shape() && Walking(chain, looped, wanted, next, mi) && next >= FIRST_MASTER
      requires var i := Find(a.infos, next); i < |masters| && masters[i].neededBy == null
      ensures !looped && (Find(a.infos, next) in chain ==> Find(a.infos, next) == chain[0])
    {
      var i := Find(a.infos, next);
      forall k | 0 < k < |chain| ensures masters[chain[k]].neededBy != null {
        assert masters[chain[k]].neededBy == masters[chain[k - 1]];
      }
      if looped {
        LoopedIsLinked(chain, wanted, next, mi);
      } else if i in chain {
        var j :| 0 <= j < |chain| && chain[j] == i;
      }
    }

    /** The walk ends at an id that needs no decoding. */
    lemma WalkEnds(chain: seq<nat>, looped: bool, wanted: nat, next: nat, mi: MasterInfo?)
      requires Shape() && Walking(chain, looped, wanted, next, mi)
      requires next >= FIRST_MASTER ==> var i := Find(a.infos, next); i < |masters| && masters[i].neededBy == null
      ensures Linked(chain, false) && mi == if chain == [] then null else masters[chain[|chain| - 1]]
      ensures if chain == [] then next == wanted
              else next == a.infos[chain[|chain| - 1]].parent && a.infos[chain[0]].id == wanted
    {
      if looped {
        LoopedIsLinked(chain, wanted, next, mi);
      }
    }

    lemma NothingLinked(wanted: nat)
      requires Shape() && Unlinked()
      ensures Walking([], false, wanted, wanted, null)
    {
    }

    /** Removes every link. */
    method ClearLinks()
      requires Shape()
      modifies masters`neededBy
      ensures Unlinked()
    {
      for i := 0 to |masters|
        invariant forall k :: 0 <= k < i ==> masters[k].neededBy == null
      {
        masters[i].neededBy := null;
      }
    }

    /** A master that is neither linked nor cached is needed by the last one. */
    method LinkTo(m: MasterInfo, mi: MasterInfo?, ghost chain: seq<nat>, ghost looped: bool, ghost wanted: nat, ghost next: nat,
                  ghost i: nat)
      returns (ghost chain': seq<nat>, ghost looped': bool)
      requires Shape() && Walking(chain, looped, wanted, next, mi) && next >= FIRST_MASTER
      requires i == Find(a.infos, next) && i < |masters| && masters[i] == m && a.infos[i].size <= 0xFFFF
      requires m.neededBy == null && m.data == None
      modifies m`neededBy
      ensures Walking(chain', looped', wanted, m.info.parent, m) && |chain'| <= |masters|
      ensures if looped' then chain' == chain && !looped else |chain'| == |chain| + 1
    {
      hide Find, Chain, Link;
      FreshOrFirst(chain, looped, wanted, next, mi);
      ChainIn(a.infos, chain);
      if mi != null {
        m.neededBy := mi;
      }
      if i in chain {
        chain', looped' := chain, true;
      } else {
        StepLinks(chain, i, wanted, next);
        chain', looped' := chain + [i], false;
      }
      ChainShort(a.infos, chain');
    }

    /** Follows the chain up to a master that is cached or needs none; false if there is no such chain. */
    method LinkChain(wanted: nat) returns (ok: bool, mi: MasterInfo?, ghost chain: seq<nat>)
      requires Valid() && supermaster.Some? && wanted >= FIRST_MASTER
      modifies masters`neededBy
      ensures Shape() && Sound()
      ensures !ok ==> NoDict(a, wanted)
      ensures ok ==> Linked(chain, false) && mi == (if chain == [] then null else masters[chain[|chain| - 1]])
      ensures ok ==> Ready(if chain == [] then wanted else a.infos[chain[|chain| - 1]].parent)
      ensures ok && chain != [] ==> a.infos[chain[0]].id == wanted
    {
      hide Find, Walking, Linked, HasDict, NoDict, Chain, Sound;
      mi, chain := null, [];
      var next: nat := wanted;
      ghost var looped := false;
      NothingLinked(wanted);
      while next >= FIRST_MASTER
        invariant Sound() && Walking(chain, looped, wanted, next, mi)
        invariant |chain| <= |masters|
        decreases |masters| - |chain|, if looped then 0 else 1
      {
        var i := FindMaster(next);
        if i == |masters| || masters[i].info.size > 0xFFFF {
          MissingBelow(chain, looped, wanted, next, mi);
          return false, mi, chain;
        }
        var m := masters[i];
        if m.neededBy != null {
          CircularBelow(chain, looped, wanted, next, mi);
          return false, mi, chain;
        }
        if m.data.Some? {
          break;
        }
        chain, looped := LinkTo(m, mi, chain, looped, wanted, next, i);
        mi := m;
        next := m.info.parent;
      }
      WalkEnds(chain, looped, wanted, next, mi);
      ok := true;
    }

    // ----- the second pass -----

    /** The bytes a master is decoded against. */
    method UseMaster(id: nat) returns (window: seq<byte>)
      requires Shape() && Sound() && Ready(id)
      ensures HasDict(a, id, window)
    {
      if id == SUPER_MASTER {
        window := supermaster.value;
        assert Dict(a, id, 0) == Some(window);
      } else if id == NO_MASTER {
        window := seq(512, _ => 0);
        assert Dict(a, id, 0) == Some(window);
      } else {
        var i := FindMaster(id);
        assert Cached(i);
        window := masters[i].data.value;
      }
    }

    /** The second pass: the first n masters of the chain are still linked and without data. */
    ghost predicate Pending(chain: seq<nat>, n: nat)
      requires Shape()
      reads masters
    {
      && Chain(a.infos, chain) && n <= |chain|
      && (forall k :: 0 < k < n ==> masters[chain[k]].neededBy == masters[chain[k - 1]])
      && (forall i: nat :: i < |masters| && masters[i].neededBy != null ==> i in chain[..n])
      && (n > 0 ==> masters[chain[0]].neededBy == null)
      && (forall k :: 0 <= k < n ==> masters[chain[k]].data == None)
    }

    /** Decodes one master against its parent. */
    method DecodeMaster(mi: MasterInfo, ghost i: nat) returns (ret: int, ghost starved: bool)
      requires Shape() && Sound() && i < |masters| && masters[i] == mi && Link(a.infos, i) && mi.data == None
      requires Ready(a.infos[i].parent)
      modifies mi`data
      ensures Shape() && Sound() && ret <= 0 && Ready(a.infos[i].parent)
      ensures if ret == 0 then mi.data.Some? && Ready(a.infos[i].id) else mi.data == None
      ensures ret < 0 && !starved ==> NoDict(a, a.infos[i].id)
      ensures forall k :: 0 <= k < |masters| && k != i ==> masters[k].data == old(masters[k].data)
    {
      starved := false;
      var granted: bool := *;
      if !granted {
        starved := true;
        return USER_FAULT, starved;
      }
      var window := UseMaster(mi.info.parent);
      FromParent(a, i, window);
      var u := a.decode(mi.info, window);
      if u.code < 0 || |u.out| != mi.info.size {
        return if u.code < 0 then u.code else TRUNCATED, starved;
      }
      mi.data := Some(u.out);
      forall k: nat | k < |masters| ensures Cached(k) {
        assert old(Cached(k));
        assert masters[k].data.Some? && k != i ==> old(Ready(a.infos[k].parent));
      }
      ret := 0;
    }

    lemma StartPending(chain: seq<nat>)
      requires Shape() && Linked(chain, false)
      ensures Pending(chain, |chain|) && chain[..|chain|] == chain
    {
    }

    lemma LastPending(chain: seq<nat>, n: nat)
      requires Shape() && Pending(chain, n) && n > 0
      ensures var i := chain[n - 1]; i < |masters| && Link(a.infos, i) && masters[i].data == None
      ensures masters[chain[n - 1]].neededBy == if n == 1 then null else masters[chain[n - 2]]
      ensures n < |chain| ==> a.infos[chain[n - 1]].parent == a.infos[chain[n]].id
    {
      assert Link(a.infos, chain[n - 1]);
      if n > 1 {
        var k := n - 1;
        assert masters[chain[k]].neededBy == masters[chain[k - 1]];
      }
      if n < |chain| {
        var k := n;
        assert a.infos[chain[k - 1]].parent == a.infos[chain[k]].id;
      }
    }

    /** Takes the last pending master off the chain. */
    method Unlink(m: MasterInfo, ghost chain: seq<nat>, ghost n: nat) returns (next: MasterInfo?)
      requires Shape() && Chain(a.infos, chain) && 0 < n <= |chain| && chain[n - 1] < |masters| && masters[chain[n - 1]] == m
      requires (forall k :: 0 < k < n ==> masters[chain[k]].neededBy == masters[chain[k - 1]])
      requires forall i: nat :: i < |masters| && masters[i].neededBy != null ==> i in chain[..n]
      requires masters[chain[0]].neededBy == null
      requires forall k :: 0 <= k < n - 1 ==> masters[chain[k]].data == None
      modifies m`neededBy
      ensures Pending(chain, n - 1) && next == if n == 1 then null else masters[chain[n - 2]]
    {
      next := m.neededBy;
      if n > 1 {
        ghost var k := n - 1;
        assert masters[chain[k]].neededBy == masters[chain[k - 1]];
      }
      m.neededBy := null;
      forall i: nat | i < |masters| && masters[i].neededBy != null ensures i in chain[..n - 1] {
        assert i in chain[..n] && i != chain[n - 1];
        assert chain[..n] == chain[..n - 1] + [chain[n - 1]];
      }
      forall k | 0 < k < n - 1 ensures masters[chain[k]].neededBy == masters[chain[k - 1]] {
        assert chain[k] != chain[n - 1];
      }
    }

    /** Decodes the last pending master and takes it off the chain. */
    method DecodeLast(m: MasterInfo, ghost chain: seq<nat>, ghost n: nat) returns (ret: int, ghost starved: bool, next: MasterInfo?)
      requires Shape() && Sound() && Pending(chain, n) && n > 0 && chain[n - 1] < |masters| && masters[chain[n - 1]] == m
      requires Ready(a.infos[chain[n - 1]].parent)
      modifies m
      ensures Shape() && Sound() && ret <= 0
      ensures if ret == 0 then Pending(chain, n - 1) && next == (if n == 1 then null else masters[chain[n - 2]])
                               && Ready(a.infos[chain[n - 1]].id)
              else !starved ==> NoDict(a, a.infos[chain[n - 1]].id)
      ensures forall k :: 0 <= k < |masters| && old(masters[k].data).Some? ==> masters[k].data == old(masters[k].data)
    {
      hide Find, HasDict, NoDict, Sound, Ready, Chain, Link;
      LastPending(chain, n);
      ChainIn(a.infos, chain);
      ChainApart(a.infos, chain);
      ret, starved := DecodeMaster(m, chain[n - 1]);
      next := null;
      if ret == 0 {
        next := Unlink(m, chain, n);
      }
    }

    /** Decodes the chain from its far end, each master after its parent. */
    method DecodeChain(mi: MasterInfo?, ghost chain: seq<nat>, ghost wanted: nat) returns (ret: int, ghost starved: bool)
      requires Shape() && Sound() && Linked(chain, false) && mi == if chain == [] then null else masters[chain[|chain| - 1]]
      requires Ready(if chain == [] then wanted else a.infos[chain[|chain| - 1]].parent)
      requires chain != [] ==> a.infos[chain[0]].id == wanted
      modifies masters
      ensures Shape() && Sound() && ret <= 0
      ensures ret == 0 ==> Unlinked() && Ready(wanted)
      ensures ret < 0 && !starved ==> NoDict(a, wanted)
      ensures forall k :: 0 <= k < |masters| && old(masters[k].data).Some? ==> masters[k].data == old(masters[k].data)
    {
      hide Find, HasDict, NoDict, Sound, Linked, Ready, Pending, Chain, Link;
      ChainOf(chain);
      ghost var n: nat := |chain|;
      var cur := mi;
      StartPending(chain);
      starved := false;
      while cur != null
        invariant n <= |chain| && Pending(chain, n) && Sound() && cur == if n == 0 then null else masters[chain[n - 1]]
        invariant Ready(if n < |chain| then a.infos[chain[n]].id else if n == 0 then wanted else a.infos[chain[n - 1]].parent)
        invariant forall k :: 0 <= k < |masters| && old(masters[k].data).Some? ==> masters[k].data == old(masters[k].data)
        decreases n
      {
        LastPending(chain, n);
        var next;
        ret, starved, next := DecodeLast(cur, chain, n);
        if ret < 0 {
          if !starved {
            NoneUpwards(a, chain, n - 1);
          }
          return ret, starved;
        }
        cur := next;
        n := n - 1;
      }
      NonePending(chain);
      ret := 0;
    }

    lemma ChainOf(chain: seq<nat>)
      requires Shape() && Linked(chain, false)
      ensures Chain(a.infos, chain) && forall k :: 0 <= k < |chain| ==> chain[k] < |a.infos|
    {
      ChainIn(a.infos, chain);
    }

    lemma NonePending(chain: seq<nat>)
      requires Shape() && Pending(chain, 0)
      ensures Unlinked()
    {
    }

    // ----- the whole resolution -----

    /** Unpacks the built-in dictionary the first time it is needed. */
    method LoadSupermaster() returns (ret: int, ghost starved: bool)
      requires Valid()
      modifies this`supermaster
      ensures Valid() && ret <= 0 && (ret == 0 <==> supermaster.Some?)
      ensures ret < 0 && !starved ==> Super(a) == None
    {
      starved := false;
      if supermaster.None? {
        var granted: bool := *;
        if !granted {
          return USER_FAULT, true;
        }
        var u := a.builtin;
        if u.code < 0 || |u.out| != SUPER_SIZE || u.csum != 0x1E55 {
          return if u.code < 0 then u.code else INTERNAL_ERROR, false;
        }
        supermaster := Some(u.out);
        forall k: nat | k < |masters| ensures Cached(k) {
          assert old(Cached(k));
          assert masters[k].data.Some? ==> old(Ready(a.infos[k].parent));
        }
      }
      ret := 0;
    }

    /**
      * Makes the dictionary with this id usable. Without a refused allocation it succeeds exactly if there is one; on
      * success it is cached with everything it was decoded against; no link survives, and no cached dictionary is lost.
      */
    method ResolveMaster(wanted: nat) returns (ret: int, ghost starved: bool)
      requires Valid()
      modifies this`supermaster, masters
      ensures Valid() && ret <= 0
      ensures pcp ==> ret == UNIMPLEMENTED
      ensures ret == 0 ==> Ready(wanted)
      ensures !pcp && !starved ==> (ret == 0 <==> Super(a).Some? && exists d :: HasDict(a, wanted, d))
      ensures forall k :: 0 <= k < |masters| && old(masters[k].data).Some? ==> masters[k].data == old(masters[k].data)
    {
      if pcp {
        return UNIMPLEMENTED, false;
      }
      ret, starved := LoadSupermaster();
      if ret < 0 {
        return ret, starved;
      }
      if wanted < FIRST_MASTER {
        ReadyHasDict(wanted);
        return 0, false;
      }
      var ok, mi;
      ghost var chain;
      ok, mi, chain := LinkChain(wanted);
      if !ok {
        ClearLinks();
        NoneHasDict(wanted);
        return DAMAGED, false;
      }
      ret, starved := DecodeChain(mi, chain, wanted);
      if ret < 0 {
        ClearLinks();
        if !starved {
          NoneHasDict(wanted);
        }
        return ret, starved;
      }
      ReadyHasDict(wanted);
    }

    lemma NoneHasDict(id: nat)
      requires NoDict(a, id)
      ensures !exists d :: HasDict(a, id, d)
    {
      forall d | HasDict(a, id, d) ensures false {
        Known(a, id, d);
      }
    }

    /** What is ready is right. */
    lemma ReadyHasDict(id: nat)
      requires Shape() && Sound() && Ready(id)
      ensures Super(a).Some? && exists d :: HasDict(a, id, d)
    {
      if id == SUPER_MASTER {
        assert Dict(a, id, 0) == Super(a);
        assert HasDict(a, id, Super(a).value);
      } else if id == NO_MASTER {
        assert Dict(a, id, 0) == Some(seq(512, _ => 0));
        assert HasDict(a, id, seq(512, _ => 0));
      } else {
        assert Cached(Find(a.infos, id));
      }
    }

    /** The same holds for everything the dictionary was decoded against. */
    lemma ParentReady(id: nat)
      requires Shape() && Sound() && Ready(id) && id >= FIRST_MASTER
      ensures Ready(a.infos[Find(a.infos, id)].parent)
    {
      assert Cached(Find(a.infos, id));
    }
  }

  lemma ChainIn(infos: seq<Info>, chain: seq<nat>)
    requires Chain(infos, chain)
    ensures forall k :: 0 <= k < |chain| ==> chain[k] < |infos|
  {
    forall k | 0 <= k < |chain| ensures chain[k] < |infos| {
      assert Link(infos, chain[k]);
    }
  }

  lemma ChainApart(infos: seq<Info>, chain: seq<nat>)
    requires Chain(infos, chain)
    ensures forall j, k :: 0 <= j < k < |chain| ==> chain[j] != chain[k]
  {
  }

  lemma ChainShort(infos: seq<Info>, chain: seq<nat>)
    requires Chain(infos, chain)
    ensures |chain| <= |infos|
  {
    forall k | 0 <= k < |chain| ensures chain[k] < |infos| {
      assert Link(infos, chain[k]);
    }
    DistinctBounded(chain, |infos|);
  }

  lemma {:induction false} FirstIs(infos: seq<Info>, id: nat, i: nat)
    requires i <= |infos| && (forall k :: 0 <= k < i ==> infos[k].id != id) && (i < |infos| ==> infos[i].id == id)
    ensures Find(infos, id) == i
  {
  }
}
