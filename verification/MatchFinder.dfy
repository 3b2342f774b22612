/** The compressor's window: the ring, the hash chains over it, and the search for matches. */
module MatchFinder {
  import opened BitStrings
  import opened BitIO
  import opened LzCodes
  import opened Window

  const HASH_SIZE := 8192
  const MAX_LEN := 200
  const READ_SIZE := 512
  const NO_POSITION := 0xFFFF_FFFF_FFFF_FFFF

  /** The exclusive-or of two numbers, bit by bit. */
  function Xor(a: nat, b: nat): nat
    decreases a + b
  {
    if a == 0 && b == 0 then 0 else (a + b) % 2 + 2 * Xor(a / 2, b / 2)
  }

  lemma {:induction false} XorFits(a: nat, b: nat, n: nat)
    requires a < Pow2(n) && b < Pow2(n)
    ensures Xor(a, b) < Pow2(n)
    decreases a + b
  {
    if a + b > 0 {
      XorFits(a / 2, b / 2, n - 1);
    }
  }

  lemma {:induction false} XorStep(a: nat, b: nat)
    ensures Xor(a, b) == (a + b) % 2 + 2 * Xor(a / 2, b / 2)
  {
  }

  lemma SameHalves(x: nat, y: nat, a: nat, b: nat, m: nat)
    requires (a + m) % 2 + 2 * x == (b + m) % 2 + 2 * y
    ensures x == y && (a / 2 == b / 2 ==> a == b)
  {
  }

  /** Exclusive-or with the same number tells numbers apart. */
  lemma {:induction false} XorTells(a: nat, b: nat, m: nat)
    ensures Xor(a, m) == Xor(b, m) <==> a == b
    decreases a + b + m
  {
    hide Xor;
    if a + b > 0 && Xor(a, m) == Xor(b, m) {
      XorStep(a, m);
      XorStep(b, m);
      SameHalves(Xor(a / 2, m / 2), Xor(b / 2, m / 2), a, b, m);
      XorTells(a / 2, b / 2, m / 2);
    }
  }

  lemma {:induction false} XorSwap(a: nat, b: nat)
    ensures Xor(a, b) == Xor(b, a)
    decreases a + b
  {
    if a + b > 0 {
      XorSwap(a / 2, b / 2);
    }
  }

  /** The hash of three bytes fits the head table. */
  function Hash(a: byte, b: byte, c: byte): (h: nat)
    ensures h < HASH_SIZE
  {
    assert HASH_SIZE == Pow2(13);
    XorFits(a, 8 * b, 13);
    XorFits(Xor(a, 8 * b), 64 * (c % 128), 13);
    Xor(Xor(a, 8 * b), 64 * (c % 128))
  }

  /** Triples that differ in one byte have different hashes, but for the top bit of the last. */
  lemma HashTells(a: byte, b: byte, c: byte, x: byte)
    ensures Hash(a, b, c) == Hash(x, b, c) <==> a == x
    ensures Hash(a, b, c) == Hash(a, x, c) <==> b == x
    ensures Hash(a, b, c) == Hash(a, b, x) <==> c % 128 == x % 128
  {
    hide Xor;
    XorTells(Xor(a, 8 * b), Xor(x, 8 * b), 64 * (c % 128));
    XorTells(a, x, 8 * b);
    XorTells(Xor(a, 8 * b), Xor(a, 8 * x), 64 * (c % 128));
    XorTells(8 * b, 8 * x, a);
    XorSwap(a, 8 * b);
    XorSwap(a, 8 * x);
    XorTells(64 * (c % 128), 64 * (x % 128), Xor(a, 8 * b));
    XorSwap(Xor(a, 8 * b), 64 * (c % 128));
    XorSwap(Xor(a, 8 * b), 64 * (x % 128));
  }

  // ----- the hash chains -----

  ghost predicate HashIs(text: seq<byte>, p: nat, h: nat)
  {
    p + 3 <= |text| && Hash(text[p], text[p + 1], text[p + 2]) == h
  }

  /** The entered positions whose three bytes have a hash, the latest first. */
  ghost function SameHash(entered: seq<nat>, text: seq<byte>, h: nat): seq<nat>
  {
    if entered == [] then []
    else
      var n := |entered| - 1;
      (if HashIs(text, entered[n], h) then [entered[n]] else []) + SameHash(entered[..n], text, h)
  }

  ghost function First(s: seq<nat>): nat { if s == [] then NO_POSITION else s[0] }

  ghost function At(s: seq<nat>, k: nat): nat { if k < |s| then s[k] else NO_POSITION }

  ghost predicate Ascending(s: seq<nat>) { forall i, j :: 0 <= i < j < |s| ==> s[i] < s[j] }

  ghost predicate Before(s: seq<nat>, p: nat) { forall i :: 0 <= i < |s| ==> s[i] < p }

  /** The slot of the k-th entered position leads to the one of the same hash before it. */
  ghost predicate LinkAt(prev: seq<nat>, text: seq<byte>, entered: seq<nat>, k: nat)
    requires |prev| == WINDOW && k < |entered|
  {
    forall h :: HashIs(text, entered[k], h) ==> prev[entered[k] % WINDOW] == First(SameHash(entered[..k], text, h))
  }

  /**
    * The head of each hash is the latest entered position that has it, and each entered position leads to the one before
    * it, as long as its slot has not been used again.
    */
  ghost predicate Chained(head: seq<nat>, prev: seq<nat>, text: seq<byte>, entered: seq<nat>)
  {
    && |head| == HASH_SIZE && |prev| == WINDOW && Ascending(entered)
    && (forall k :: 0 <= k < |entered| ==> entered[k] + 3 <= |text|)
    && (forall h: nat :: h < HASH_SIZE ==> head[h] == First(SameHash(entered, text, h)))
    && (forall k: nat :: k < |entered| && Before(entered, entered[k] + WINDOW) ==> LinkAt(prev, text, entered, k))
  }

  lemma NothingChained(head: seq<nat>, prev: seq<nat>, text: seq<byte>)
    requires |head| == HASH_SIZE && |prev| == WINDOW && forall h :: 0 <= h < HASH_SIZE ==> head[h] == NO_POSITION
    ensures Chained(head, prev, text, [])
  {
  }

  lemma {:induction false} SameHashMore(entered: seq<nat>, text: seq<byte>, more: seq<byte>, h: nat)
    requires forall k :: 0 <= k < |entered| ==> entered[k] + 3 <= |text|
    ensures SameHash(entered, text + more, h) == SameHash(entered, text, h)
  {
    hide Hash;
    if entered != [] {
      SameHashMore(entered[..|entered| - 1], text, more, h);
    }
  }

  /** More text changes no chain. */
  lemma ChainedMore(head: seq<nat>, prev: seq<nat>, text: seq<byte>, more: seq<byte>, entered: seq<nat>)
    requires Chained(head, prev, text, entered)
    ensures Chained(head, prev, text + more, entered)
  {
    hide Hash, SameHash;
    forall h: nat | h < HASH_SIZE ensures head[h] == First(SameHash(entered, text + more, h)) {
      SameHashMore(entered, text, more, h);
    }
    forall k: nat | k < |entered| && Before(entered, entered[k] + WINDOW) ensures LinkAt(prev, text + more, entered, k) {
      assert LinkAt(prev, text, entered, k);
      forall h | HashIs(text + more, entered[k], h) ensures prev[entered[k] % WINDOW] == First(SameHash(entered[..k], text + more, h)) {
        SameHashMore(entered[..k], text, more, h);
      }
    }
  }

  lemma SameHashAppend(entered: seq<nat>, text: seq<byte>, p: nat, h: nat)
    ensures SameHash(entered + [p], text, h) == (if HashIs(text, p, h) then [p] else []) + SameHash(entered, text, h)
  {
    hide HashIs;
    assert (entered + [p])[..|entered|] == entered;
  }

  /** Entering a position behind all others. */
  lemma ChainedEnter(head: seq<nat>, prev: seq<nat>, text: seq<byte>, entered: seq<nat>, p: nat, h: nat)
    requires Chained(head, prev, text, entered) && HashIs(text, p, h) && h < HASH_SIZE && Before(entered, p)
    ensures Chained(head[h := p], prev[p % WINDOW := head[h]], text, entered + [p])
  {
    hide Hash, SameHash, HashIs;
    var head', prev', entered' := head[h := p], prev[p % WINDOW := head[h]], entered + [p];
    forall g: nat | g < HASH_SIZE ensures head'[g] == First(SameHash(entered', text, g)) {
      SameHashAppend(entered, text, p, g);
      OneHash(text, p, h, g);
    }
    forall k: nat | k < |entered'| && Before(entered', entered'[k] + WINDOW) ensures LinkAt(prev', text, entered', k) {
      assert entered'[|entered|] == p;
      if k < |entered| {
        assert Before(entered, entered[k] + WINDOW) && LinkAt(prev, text, entered, k);
        assert entered'[..k] == entered[..k];
        SlotsApart(entered[k], p);
      } else {
        assert entered'[..k] == entered;
        forall g | HashIs(text, p, g) ensures prev'[p % WINDOW] == First(SameHash(entered, text, g)) {
          OneHash(text, p, h, g);
        }
      }
    }
    EnteredIn(text, p, h);
  }

  lemma OneHash(text: seq<byte>, p: nat, h: nat, g: nat)
    requires HashIs(text, p, h)
    ensures HashIs(text, p, g) <==> g == h
  {
    hide Hash;
  }

  lemma EnteredIn(text: seq<byte>, p: nat, h: nat)
    requires HashIs(text, p, h)
    ensures p + 3 <= |text|
  {
  }

  lemma SlotsApart(a: nat, b: nat)
    requires a < b < a + WINDOW
    ensures a % WINDOW != b % WINDOW
  {
    SlotsDiffer(a, b);
  }

  /** Where a chain stands, and what is left of it. */
  lemma {:induction false} SameHashAt(entered: seq<nat>, text: seq<byte>, h: nat, d: nat) returns (k: nat)
    requires d < |SameHash(entered, text, h)|
    ensures var cs := SameHash(entered, text, h);
            k < |entered| && entered[k] == cs[d] && HashIs(text, cs[d], h) && SameHash(entered[..k], text, h) == cs[d + 1..]
  {
    hide HashIs;
    var n := |entered| - 1;
    var rest := SameHash(entered[..n], text, h);
    if HashIs(text, entered[n], h) {
      if d == 0 {
        k := n;
      } else {
        k := SameHashAt(entered[..n], text, h, d - 1);
        assert entered[..n][..k] == entered[..k];
      }
    } else {
      k := SameHashAt(entered[..n], text, h, d);
      assert entered[..n][..k] == entered[..k];
    }
  }

  /** Following the chain one step. */
  lemma NextInChain(head: seq<nat>, prev: seq<nat>, text: seq<byte>, entered: seq<nat>, h: nat, d: nat, pos: nat)
    requires Chained(head, prev, text, entered) && Before(entered, pos)
    requires d < |SameHash(entered, text, h)| && pos < SameHash(entered, text, h)[d] + WINDOW
    ensures var cs := SameHash(entered, text, h);
            cs[d] + 3 <= |text| && cs[d] < pos && prev[cs[d] % WINDOW] == At(cs, d + 1)
  {
    hide Hash, SameHash, HashIs;
    var cs := SameHash(entered, text, h);
    var k := SameHashAt(entered, text, h, d);
    assert Before(entered, entered[k] + WINDOW);
    assert LinkAt(prev, text, entered, k);
  }

  /** The positions that a search looks at: those of the hash of the three bytes at pos. */
  ghost function Candidates(entered: seq<nat>, text: seq<byte>, pos: nat): seq<nat>
    requires pos + 3 <= |text|
  {
    SameHash(entered, text, Hash(text[pos], text[pos + 1], text[pos + 2]))
  }

  lemma CandidatesOf(entered: seq<nat>, text: seq<byte>, pos: nat, h: nat)
    requires HashIs(text, pos, h)
    ensures Candidates(entered, text, pos) == SameHash(entered, text, h)
  {
    hide Hash, SameHash;
  }

  /** An entered position that begins with the same three bytes is a candidate. */
  lemma {:induction false} CandidateListed(entered: seq<nat>, text: seq<byte>, h: nat, i: nat) returns (d: nat)
    requires i < |entered| && HashIs(text, entered[i], h)
    ensures d < |SameHash(entered, text, h)| && SameHash(entered, text, h)[d] == entered[i]
  {
    hide HashIs;
    var n := |entered| - 1;
    if i == n {
      d := 0;
    } else {
      d := CandidateListed(entered[..n], text, h, i);
      if HashIs(text, entered[n], h) {
        d := d + 1;
      }
    }
  }

  /**
    * Where the next bytes have been seen before, the search finds a match at least as long, or one long enough to give up,
    * provided it looks at all positions of their hash.
    */
  lemma RepeatFound(text: seq<byte>, pos: nat, entered: seq<nat>, i: nat, depth: nat, giveUp: nat, len: nat, dist: nat)
    requires pos + 3 <= |text| && i < |entered| && Reach(pos, entered[i]) && |Candidates(entered, text, pos)| <= depth
    requires BestMatch(text, pos, Candidates(entered, text, pos), depth, giveUp, len, dist)
    requires Common(text, entered[i], pos) >= MIN_MATCH && Worth(Common(text, entered[i], pos), pos - entered[i])
    ensures len >= Common(text, entered[i], pos) || (len > 0 && len >= giveUp)
  {
    hide Hash, SameHash, Common, Chosen;
    CommonBytes(text, entered[i], pos);
    var h := Hash(text[pos], text[pos + 1], text[pos + 2]);
    var d := CandidateListed(entered, text, h, i);
    assert Candidates(entered, text, pos)[d] == entered[i];
    if NoneBetter(text, pos, Candidates(entered, text, pos), depth, len) {
      assert Less(text, pos, entered[i], len + 1);
    }
  }

  lemma {:induction false} CommonSame(text: seq<byte>, c: nat, pos: nat, l: nat, k: nat)
    requires c < pos && pos + l <= |text| && l <= k < CommonFrom(text, c, pos, l)
    ensures pos + k < |text| && text[c + k] == text[pos + k]
    decreases |text| - l
  {
    if l < k {
      CommonSame(text, c, pos, l + 1, k);
    }
  }

  lemma CommonBytes(text: seq<byte>, c: nat, pos: nat)
    requires c < pos <= |text| && Common(text, c, pos) >= MIN_MATCH
    ensures c + 3 <= pos + 3 <= |text|
    ensures text[c] == text[pos] && text[c + 1] == text[pos + 1] && text[c + 2] == text[pos + 2]
  {
    CommonSame(text, c, pos, 0, 0);
    CommonSame(text, c, pos, 0, 1);
    CommonSame(text, c, pos, 0, 2);
  }

  // ----- the best match -----

  /** How many bytes at two positions are the same, from l on. */
  ghost function CommonFrom(text: seq<byte>, c: nat, pos: nat, l: nat): (r: nat)
    requires c < pos && pos + l <= |text|
    ensures l <= r && pos + r <= |text|
    decreases |text| - l
  {
    if pos + l < |text| && l < MAX_LEN && text[c + l] == text[pos + l] then CommonFrom(text, c, pos, l + 1) else l
  }

  ghost function Common(text: seq<byte>, c: nat, pos: nat): (r: nat)
    requires c < pos <= |text|
  {
    CommonFrom(text, c, pos, 0)
  }

  /** Three bytes are worth a match only from nearby. */
  predicate Worth(len: nat, dist: nat) { len >= MIN_MATCH && (len > MIN_MATCH || dist <= 255) }

  predicate Reach(pos: nat, c: nat) { c < pos && pos - c <= MAX_DIST }

  /** One of the first candidates of a chain is longer than all before it, and none of these ended the search. */
  ghost predicate Chosen(text: seq<byte>, pos: nat, cs: seq<nat>, depth: nat, giveUp: nat, len: nat, dist: nat, k: int)
    requires pos <= |text|
  {
    && 0 <= k < |cs| && k < depth && Reach(pos, cs[k]) && dist == pos - cs[k]
    && len == Common(text, cs[k], pos) && Worth(len, dist)
    && forall j :: 0 <= j < k && Reach(pos, cs[j]) ==> Less(text, pos, cs[j], len) && Less(text, pos, cs[j], giveUp)
  }

  ghost predicate Less(text: seq<byte>, pos: nat, c: nat, len: nat)
    requires pos <= |text| && Reach(pos, c)
  {
    var l := Common(text, c, pos);
    !Worth(l, pos - c) || l < len
  }

  /** No candidate among the first is better. */
  ghost predicate NoneBetter(text: seq<byte>, pos: nat, cs: seq<nat>, depth: nat, len: nat)
    requires pos <= |text|
  {
    forall j :: 0 <= j < |cs| && j < depth && Reach(pos, cs[j]) ==> Less(text, pos, cs[j], len + 1)
  }

  /**
    * The match found in a chain of candidates: the nearest of the longest ones among the first `depth` candidates, or the
    * first that is long enough to give up the search. None is found exactly where none is worth it.
    */
  ghost predicate BestMatch(text: seq<byte>, pos: nat, cs: seq<nat>, depth: nat, giveUp: nat, len: nat, dist: nat)
    requires pos <= |text|
  {
    && (len == 0 || exists k :: Chosen(text, pos, cs, depth, giveUp, len, dist, k))
    && (NoneBetter(text, pos, cs, depth, len) || (len > 0 && len >= giveUp))
  }

  /** What a search has found when it has looked at the first d candidates; a length of 2 stands for nothing. */
  ghost predicate BestSoFar(text: seq<byte>, pos: nat, cs: seq<nat>, d: nat, giveUp: nat, len: nat, dist: nat)
    requires pos <= |text|
  {
    && (len == MIN_MATCH - 1 || (MIN_MATCH <= len && exists k :: Chosen(text, pos, cs, d, giveUp, len, dist, k)))
    && NoneBetter(text, pos, cs, d, len)
  }

  lemma ChosenDeeper(text: seq<byte>, pos: nat, cs: seq<nat>, d: nat, e: nat, giveUp: nat, len: nat, dist: nat, k: int)
    requires pos <= |text| && d <= e && Chosen(text, pos, cs, d, giveUp, len, dist, k)
    ensures Chosen(text, pos, cs, e, giveUp, len, dist, k)
  {
    hide Common, Less, Worth;
  }

  /** A candidate that is no better is passed over. */
  lemma PassOver(text: seq<byte>, pos: nat, cs: seq<nat>, d: nat, giveUp: nat, len: nat, dist: nat)
    requires pos <= |text| && BestSoFar(text, pos, cs, d, giveUp, len, dist) && d < |cs|
    requires Reach(pos, cs[d]) && Less(text, pos, cs[d], len + 1)
    ensures BestSoFar(text, pos, cs, d + 1, giveUp, len, dist)
  {
    hide Common, Less, Worth, Chosen;
    if len != MIN_MATCH - 1 {
      var k :| Chosen(text, pos, cs, d, giveUp, len, dist, k);
      ChosenDeeper(text, pos, cs, d, d + 1, giveUp, len, dist, k);
    }
  }

  /** The search has one result. */
  lemma OneBest(text: seq<byte>, pos: nat, cs: seq<nat>, depth: nat, giveUp: nat, len: nat, dist: nat, len': nat, dist': nat)
    requires pos <= |text|
    requires BestMatch(text, pos, cs, depth, giveUp, len, dist) && BestMatch(text, pos, cs, depth, giveUp, len', dist')
    ensures len == len' && (len > 0 ==> dist == dist')
  {
    hide Common, Worth, Less, NoneBetter;
    if len > 0 && len' > 0 {
      var k :| Chosen(text, pos, cs, depth, giveUp, len, dist, k);
      var k' :| Chosen(text, pos, cs, depth, giveUp, len', dist', k');
      Outdone(text, pos, cs, depth, giveUp, len, dist, k, len', dist', k');
      Outdone(text, pos, cs, depth, giveUp, len', dist', k', len, dist, k);
    } else if len > 0 {
      OneFound(text, pos, cs, depth, giveUp, len, dist);
    } else if len' > 0 {
      OneFound(text, pos, cs, depth, giveUp, len', dist');
    }
  }

  lemma Outdone(text: seq<byte>, pos: nat, cs: seq<nat>, depth: nat, giveUp: nat, len: nat, dist: nat, k: int,
                len': nat, dist': nat, k': int)
    requires pos <= |text|
    requires Chosen(text, pos, cs, depth, giveUp, len, dist, k) && Chosen(text, pos, cs, depth, giveUp, len', dist', k')
    ensures k < k' ==> len < len' && len < giveUp
    ensures NoneBetter(text, pos, cs, depth, len') ==> len <= len'
  {
    hide Common, Worth;
    assert k < k' ==> Less(text, pos, cs[k], len') && Less(text, pos, cs[k], giveUp);
    assert NoneBetter(text, pos, cs, depth, len') ==> Less(text, pos, cs[k], len' + 1);
  }

  lemma OneFound(text: seq<byte>, pos: nat, cs: seq<nat>, depth: nat, giveUp: nat, len: nat, dist: nat)
    requires pos <= |text| && len > 0 && BestMatch(text, pos, cs, depth, giveUp, len, dist)
    ensures !NoneBetter(text, pos, cs, depth, 0)
  {
    hide Common;
    var k :| Chosen(text, pos, cs, depth, giveUp, len, dist, k);
    assert !Less(text, pos, cs[k], 1);
  }

  lemma LessMore(text: seq<byte>, pos: nat, c: nat, len: nat, more: nat)
    requires pos <= |text| && Reach(pos, c) && Less(text, pos, c, len) && len <= more
    ensures Less(text, pos, c, more)
  {
    hide Common, Worth;
  }

  /** A longer match takes the place of the best so far. */
  lemma Take(text: seq<byte>, pos: nat, cs: seq<nat>, d: nat, giveUp: nat, len: nat, dist: nat, l: nat)
    requires pos <= |text| && BestSoFar(text, pos, cs, d, giveUp, len, dist) && d < |cs|
    requires Reach(pos, cs[d]) && l == Common(text, cs[d], pos) && l > len && Worth(l, pos - cs[d])
    requires len == MIN_MATCH - 1 || len < giveUp
    ensures BestSoFar(text, pos, cs, d + 1, giveUp, l, pos - cs[d])
  {
    hide Common, Less, Worth;
    assert Less(text, pos, cs[d], l + 1) by { LongestSoFar(text, pos, cs[d], l); }
    forall j | 0 <= j < |cs| && j < d && Reach(pos, cs[j]) 
      ensures Less(text, pos, cs[j], l) && Less(text, pos, cs[j], l + 1) && Less(text, pos, cs[j], giveUp)
    {
      LessMore(text, pos, cs[j], len + 1, l);
      if len == MIN_MATCH - 1 {
        TooShort(text, pos, cs[j], giveUp);
      } else {
        LessMore(text, pos, cs[j], len + 1, giveUp);
      }
      LessMore(text, pos, cs[j], len + 1, l + 1);
    }
    assert Chosen(text, pos, cs, d + 1, giveUp, l, pos - cs[d], d);
  }

  lemma LongestSoFar(text: seq<byte>, pos: nat, c: nat, l: nat)
    requires pos <= |text| && Reach(pos, c) && l == Common(text, c, pos)
    ensures Less(text, pos, c, l + 1)
  {
    hide Common, Worth;
  }

  /** The search ends with the last candidate, behind the first that is out of reach, or with a match long enough. */
  lemma SearchDone(text: seq<byte>, pos: nat, cs: seq<nat>, depth: nat, giveUp: nat, d: nat, len: nat, dist: nat)
    requires pos <= |text| && BestSoFar(text, pos, cs, d, giveUp, len, dist) && MIN_MATCH - 1 <= len && d <= depth
    requires
      || d == depth || (MIN_MATCH <= len && giveUp <= len)
      || forall j :: d <= j < |cs| ==> !Reach(pos, cs[j])
    ensures BestMatch(text, pos, cs, depth, giveUp, if len >= MIN_MATCH then len else 0, dist)
  {
    hide Common, Less, Worth, Chosen, Reach;
    if len >= MIN_MATCH {
      var k :| Chosen(text, pos, cs, d, giveUp, len, dist, k);
      ChosenDeeper(text, pos, cs, d, depth, giveUp, len, dist, k);
    } else {
      forall j | 0 <= j < |cs| && j < d && Reach(pos, cs[j]) ensures Less(text, pos, cs[j], 1) {
        TooShort(text, pos, cs[j], 1);
      }
    }
  }

  lemma TooShort(text: seq<byte>, pos: nat, c: nat, len: nat)
    requires pos <= |text| && Reach(pos, c) && Less(text, pos, c, MIN_MATCH)
    ensures Less(text, pos, c, len)
  {
    hide Common;
  }

  lemma {:induction false} ChainDescends(entered: seq<nat>, text: seq<byte>, h: nat, i: nat, j: nat)
    requires Ascending(entered) && i <= j < |SameHash(entered, text, h)|
    ensures SameHash(entered, text, h)[j] <= SameHash(entered, text, h)[i]
  {
    hide HashIs;
    var n := |entered| - 1;
    if !HashIs(text, entered[n], h) {
      ChainDescends(entered[..n], text, h, i, j);
    } else if i > 0 {
      ChainDescends(entered[..n], text, h, i - 1, j - 1);
    } else if j > 0 {
      var k := SameHashAt(entered[..n], text, h, j - 1);
    }
  }

  /** Behind a candidate out of reach all are. */
  lemma RestOutOfReach(entered: seq<nat>, text: seq<byte>, h: nat, d: nat, pos: nat)
    requires Ascending(entered) && Before(entered, pos)
    requires d < |SameHash(entered, text, h)| ==> !Reach(pos, SameHash(entered, text, h)[d])
    ensures forall j :: d <= j < |SameHash(entered, text, h)| ==> !Reach(pos, SameHash(entered, text, h)[j])
  {
    hide SameHash, HashIs;
    var cs := SameHash(entered, text, h);
    forall j | d <= j < |cs| ensures !Reach(pos, cs[j]) {
      ChainDescends(entered, text, h, d, j);
      var k := SameHashAt(entered, text, h, d);
    }
  }

  lemma {:induction false} CommonStops(text: seq<byte>, c: nat, pos: nat, l: nat, at: nat)
    requires c < pos && l <= at && pos + l <= |text|
    requires pos + at >= |text| || text[c + at] != text[pos + at]
    ensures CommonFrom(text, c, pos, l) <= at
    decreases |text| - l
  {
    if pos + l < |text| && l < MAX_LEN && text[c + l] == text[pos + l] {
      CommonStops(text, c, pos, l + 1, at);
    }
  }

  /** A byte that differs shows that a candidate is no longer than the best. */
  lemma Filtered(text: seq<byte>, c: nat, pos: nat, len: nat)
    requires pos <= |text| && Reach(pos, c) && (pos + len >= |text| || text[c + len] != text[pos + len])
    ensures Less(text, pos, c, len + 1)
  {
    CommonStops(text, c, pos, 0, len);
  }

  /** A candidate that is not taken is no better. */
  lemma NotTaken(text: seq<byte>, c: nat, pos: nat, l: nat, len: nat)
    requires pos <= |text| && Reach(pos, c) && l == Common(text, c, pos) && len >= MIN_MATCH - 1
    requires l <= len || !(l > 3 || pos - c <= 255)
    ensures Less(text, pos, c, len + 1)
  {
    hide Common;
  }

  lemma NothingYet(text: seq<byte>, pos: nat, cs: seq<nat>, giveUp: nat)
    requires pos <= |text|
    ensures BestSoFar(text, pos, cs, 0, giveUp, MIN_MATCH - 1, 0)
  {
    hide Less;
  }

  lemma HeadOf(head: seq<nat>, prev: seq<nat>, text: seq<byte>, entered: seq<nat>, h: nat)
    requires Chained(head, prev, text, entered) && h < HASH_SIZE
    ensures head[h] == At(SameHash(entered, text, h), 0)
  {
    hide SameHash, LinkAt;
  }

  /** A position that the chain leads to and that lies before pos is a candidate. */
  lemma InChain(entered: seq<nat>, text: seq<byte>, h: nat, d: nat, pos: nat)
    requires pos <= NO_POSITION && At(SameHash(entered, text, h), d) < pos
    ensures d < |SameHash(entered, text, h)|
  {
    hide SameHash;
  }

  lemma OutOfReach(entered: seq<nat>, text: seq<byte>, h: nat, d: nat, pos: nat)
    requires Ascending(entered) && Before(entered, pos) && pos <= NO_POSITION && !Reach(pos, At(SameHash(entered, text, h), d))
    ensures forall j :: d <= j < |SameHash(entered, text, h)| ==> !Reach(pos, SameHash(entered, text, h)[j])
  {
    hide SameHash, Before, Ascending;
    RestOutOfReach(entered, text, h, d, pos);
  }

  lemma BeforeMore(s: seq<nat>, p: nat, q: nat)
    requires Before(s, p) && p <= q
    ensures Before(s, q)
  {
  }

  lemma ChainAscends(head: seq<nat>, prev: seq<nat>, text: seq<byte>, entered: seq<nat>)
    requires Chained(head, prev, text, entered)
    ensures Ascending(entered)
  {
    hide Ascending, LinkAt, SameHash;
  }

  /** A match: len bytes at pos repeat the text dist before. */
  ghost predicate Repeats(text: seq<byte>, pos: nat, dist: nat, len: nat)
  {
    && 1 <= dist <= pos && pos + len <= |text|
    && forall k: nat :: pos <= k < pos + len ==> text[k] == text[k - dist]
  }

  /** The compressor's ring buffer with its hash chains; whatever the chains hold, only real repeats are found. */
  class MatchWindow {
    const data: array<byte>
    const head: array<nat>  // hash -> most recent position
    const prev: array<nat>  // position -> previous position with the same hash
    var end: nat            // end of the valid data
    var loadPos: nat
    ghost var text: seq<byte> // the master and all input loaded
    ghost var entered: seq<nat> // the positions entered into the chains

    ghost predicate Valid()
      reads this, data
    {
      && data.Length == WINDOW && head.Length == HASH_SIZE && prev.Length == WINDOW && head != prev
      && data as object != head && data as object != prev
      && end == |text| && loadPos == end % WINDOW && Ring(data[..], text)
    }

    ghost predicate Linked()
      reads this, head, prev
    {
      Chained(head[..], prev[..], text, entered)
    }

    constructor (master: seq<byte>)
      requires |master| < WINDOW
      ensures Linked() && entered == []
      ensures Valid() && text == master && fresh(data) && fresh(head) && fresh(prev)
    {
      data := new byte[WINDOW](i => if 0 <= i < |master| then master[i] else 0);
      head := new nat[HASH_SIZE](_ => NO_POSITION);
      prev := new nat[WINDOW](_ => 0);
      text, end, loadPos, entered := master, |master|, |master|, [];
      new;
      assert data[..|master|] == master;
      RingMaster(data[..], master);
      NothingChained(head[..], prev[..], text);
    }

    function HashAt(pos: nat): (h: nat)
      reads this, data
      requires data.Length == WINDOW
      ensures h < HASH_SIZE
    {
      Hash(data[pos % WINDOW], data[(pos + 1) % WINDOW], data[(pos + 2) % WINDOW])
    }

    /** The hash taken from the ring is that of the text. */
    lemma HashOfText(pos: nat)
      requires Valid() && pos + 3 <= |text| <= pos + WINDOW
      ensures HashIs(text, pos, HashAt(pos))
    {
      hide Hash, Ring;
      RingAt(pos);
      RingAt(pos + 1);
      RingAt(pos + 2);
    }

    lemma RingAt(p: nat)
      requires Valid() && p < |text| <= p + WINDOW
      ensures data[p % WINDOW] == text[p]
    {
      assert data[..][p % WINDOW] == data[p % WINDOW];
    }

    /** Enters a position behind all others into the chain of its hash. */
    method HashEnter(pos: nat)
      requires Valid() && Linked() && Before(entered, pos) && pos + 3 <= |text| <= pos + WINDOW
      modifies head, prev, this`entered
      ensures Valid() && Linked() && entered == old(entered) + [pos] && Before(entered, pos + 1)
    {
      hide Hash, Ring, Chained, HashIs;
      ghost var heads: seq<nat>, links: seq<nat> := head[..], prev[..];
      var h := HashAt(pos);
      HashOfText(pos);
      ChainedEnter(heads, links, text, entered, pos, h);
      prev[pos % WINDOW] := head[h];
      head[h] := pos;
      assert head[..] == heads[h := pos] && prev[..] == links[pos % WINDOW := heads[h]];
      entered := entered + [pos];
    }

    /** How far the text at pos repeats the text at an earlier position, up to max bytes. */
    method CommonLength(chain: nat, pos: nat, max: nat) returns (len: nat)
      requires Valid() && chain < pos && pos + max <= |text| <= chain + WINDOW
      ensures len <= max && Repeats(text, pos, pos - chain, len)
      ensures max == MAX_LEN || (max < MAX_LEN && pos + max == |text|) ==> len == Common(text, chain, pos)
    {
      hide Ring;
      len := 0;
      while len < max && data[(chain + len) % WINDOW] == data[(pos + len) % WINDOW]
        invariant len <= max && Repeats(text, pos, pos - chain, len)
        invariant max <= MAX_LEN ==> Common(text, chain, pos) == CommonFrom(text, chain, pos, len)
      {
        RingAt(chain + len);
        RingAt(pos + len);
        len := len + 1;
      }
      if len < max {
        RingAt(chain + len);
        RingAt(pos + len);
      }
    }

    lemma FilteredOut(chain: nat, pos: nat, len: nat)
      requires Valid() && pos < |text| <= chain + WINDOW && Reach(pos, chain)
      requires data[(chain + len) % WINDOW] != data[(pos + len) % WINDOW]
      ensures Less(text, pos, chain, len + 1)
    {
      hide Ring, Less;
      if pos + len < |text| {
        RingAt(chain + len);
        RingAt(pos + len);
      }
      Filtered(text, chain, pos, len);
    }

    /**
      * Follows the chain of earlier positions with the same hash and keeps the longest match; 0 if none of the candidates
      * looked at is worth one.
      */
    method FindMatch(pos: nat, maxDepth: nat, giveUp: nat) returns (len: nat, dist: nat)
      requires Valid() && Linked() && Before(entered, pos) && pos + 3 <= |text| <= pos + 1536
      ensures len == 0 || (MIN_MATCH <= len <= MAX_LEN && dist <= MAX_DIST && Repeats(text, pos, dist, len))
      ensures pos <= NO_POSITION ==> BestMatch(text, pos, Candidates(entered, text, pos), maxDepth, giveUp, len, dist)
    {
      hide Ring, Chained, Hash, SameHash, BestSoFar, BestMatch, Less, Common, Before, HashIs, Repeats;
      var h := HashAt(pos);
      HashOfText(pos);
      ghost var cs := SameHash(entered, text, h);
      CandidatesOf(entered, text, pos, h);
      ghost var sane := pos <= NO_POSITION;
      var bestLen: nat, bestDist: nat := MIN_MATCH - 1, 0;
      var chain: nat := head[h];
      var depth: nat := 0;
      NothingYet(text, pos, cs, giveUp);
      HeadOf(head[..], prev[..], text, entered, h);
      ChainAscends(head[..], prev[..], text, entered);
      while depth < maxDepth
        invariant depth <= maxDepth && MIN_MATCH - 1 <= bestLen <= MAX_LEN && bestDist <= MAX_DIST
        invariant bestLen >= MIN_MATCH ==> bestLen < giveUp && Repeats(text, pos, bestDist, bestLen)
        invariant sane ==> chain == At(cs, depth) && BestSoFar(text, pos, cs, depth, giveUp, bestLen, bestDist)
      {
        if chain >= pos || pos - chain > MAX_DIST {
          if sane {
            OutOfReach(entered, text, h, depth, pos);
          }
          break;
        }
        if sane {
          InChain(entered, text, h, depth, pos);
        }
        if data[(chain + bestLen) % WINDOW] == data[(pos + bestLen) % WINDOW] {
          var avail := end - pos;
          var max: nat := if MAX_LEN > avail then avail else MAX_LEN;
          var l := CommonLength(chain, pos, max);
          if l > bestLen && (l > 3 || pos - chain <= 255) {
            if sane {
              Take(text, pos, cs, depth, giveUp, bestLen, bestDist, l);
            }
            bestLen, bestDist := l, pos - chain;
            if l >= giveUp {
              depth := depth + 1;
              break;
            }
          } else if sane {
            PassOver(text, pos, cs, depth, giveUp, bestLen, bestDist) by { NotTaken(text, chain, pos, l, bestLen); }
          }
        } else if sane {
          PassOver(text, pos, cs, depth, giveUp, bestLen, bestDist) by { FilteredOut(chain, pos, bestLen); }
        }
        if sane {
          NextInChain(head[..], prev[..], text, entered, h, depth, pos);
        }
        chain := prev[chain % WINDOW];
        depth := depth + 1;
      }
      if sane {
        SearchDone(text, pos, cs, maxDepth, giveUp, depth, bestLen, bestDist);
      }
      return if bestLen >= MIN_MATCH then bestLen else 0, bestDist;
    }

    method StoreByte(at: nat, b: byte)
      requires data.Length == WINDOW && at == |text| % WINDOW && Ring(data[..], text)
      modifies this`text, data
      ensures Ring(data[..], text) && text == old(text) + [b]
    {
      hide Ring;
      RingPush(data[..], text, b);
      ghost var ring := data[..];
      data[at] := b;
      assert data[..] == ring[at := b];
      text := text + [b];
    }

    /** Reads the next piece of input straight into the ring, never past its edge. */
    method Load(src: ByteSource, remaining: nat) returns (piece: seq<byte>)
      requires Valid() && src.pos <= |src.data| && remaining > 0
      modifies this`text, this`end, this`loadPos, data, src
      ensures old(Linked()) ==> Linked()
      ensures Valid() && text == old(text) + piece && |piece| <= remaining && |piece| <= READ_SIZE
      ensures old(src.pos) <= src.pos <= |src.data| && piece == src.data[old(src.pos)..src.pos]
      ensures piece == [] <==> old(src.pos) == |src.data|
    {
      hide Ring, Chained;
      ghost var heads, links, linked := head[..], prev[..], Linked();
      var chunk := if remaining > READ_SIZE then READ_SIZE else remaining;
      var edge := WINDOW - loadPos;
      if chunk > edge {
        chunk := edge;
      }
      piece := src.Read(chunk);
      ghost var before := text;
      WrapForward(end, loadPos, |piece|);
      for i := 0 to |piece|
        modifies this`text, data
        invariant data.Length == WINDOW && Ring(data[..], text) && text == before + piece[..i]
        invariant head[..] == heads && prev[..] == links
      {
        assert (end + i) % WINDOW == loadPos + i;
        StoreByte(loadPos + i, piece[i]);
      }
      loadPos := (loadPos + |piece|) % WINDOW;
      end := end + |piece|;
      assert text == before + piece;
      if linked {
        ChainedMore(heads, links, before, piece, entered);
      }
    }
  }
}
