/** Symbols grouped by code length, and what one pass of the length repair does to them. */
module LengthGroups {
  import opened BitStrings

  ghost predicate Ascending(s: seq<nat>)
  {
    forall i, j :: 0 <= i < j < |s| ==> s[i] < s[j]
  }

  /** The symbols of length l in ascending order. */
  ghost predicate Group(s: seq<nat>, g: seq<nat>, l: nat)
  {
    Ascending(g) && forall i: nat :: i in g <==> i < |s| && s[i] == l
  }

  lemma SomeMember(g: seq<nat>)
    ensures g != [] ==> exists i: nat :: i in g
  {
    if g != [] {
      assert g[0] in g;
    }
  }

  lemma NoGroup(g: seq<nat>, l: nat)
    requires Group([], g, l)
    ensures g == []
  {
    SomeMember(g);
  }

  lemma GroupLast(s: seq<nat>, g: seq<nat>, l: nat)
    requires s != [] && Group(s, g, l)
    ensures if s[|s| - 1] == l then g != [] && g[|g| - 1] == |s| - 1 && Group(s[..|s| - 1], g[..|g| - 1], l) else Group(s[..|s| - 1], g, l)
  {
    var n := |s| - 1;
    if s[n] == l {
      assert n in g;
      var k :| 0 <= k < |g| && g[k] == n;
      assert g[|g| - 1] in g;
      assert g == g[..k] + [n];
    }
  }

  function Members(s: seq<nat>, l: nat): (g: seq<nat>)
  {
    if s == [] then []
    else
      var n := |s| - 1;
      Members(s[..n], l) + if s[n] == l then [n] else []
  }

  lemma {:induction false} MembersGroup(s: seq<nat>, l: nat)
    ensures Group(s, Members(s, l), l)
  {
    if s != [] {
      var n := |s| - 1;
      MembersGroup(s[..n], l);
      hide Members;
      GroupMore(s, Members(s[..n], l), l);
    }
  }

  lemma GroupMore(s: seq<nat>, g: seq<nat>, l: nat)
    requires s != [] && Group(s[..|s| - 1], g, l)
    ensures Group(s, g + if s[|s| - 1] == l then [|s| - 1] else [], l)
  {
    forall k | 0 <= k < |g| ensures g[k] < |s| - 1 {
      assert g[k] in g;
    }
  }

  lemma {:induction false} GroupIs(s: seq<nat>, g: seq<nat>, l: nat)
    requires Group(s, g, l)
    ensures g == Members(s, l)
  {
    hide Group;
    if s == [] {
      NoGroup(g, l);
    } else {
      var n := |s| - 1;
      GroupLast(s, g, l);
      if s[n] == l {
        GroupIs(s[..n], g[..|g| - 1], l);
        assert g == g[..|g| - 1] + [n];
      } else {
        GroupIs(s[..n], g, l);
      }
    }
  }

  // ----- one pass -----

  /** The smallest symbol of length j gets one longer. */
  function Lengthened(s: seq<nat>, j: nat): (r: seq<nat>)
    requires Members(s, j) != []
    ensures |r| == |s|
  {
    FirstMember(s, j);
    s[Members(s, j)[0] := j + 1]
  }

  lemma FirstMember(s: seq<nat>, j: nat)
    requires Members(s, j) != []
    ensures var x := Members(s, j)[0];
            x < |s| && s[x] == j && forall i: nat :: i < |s| && s[i] == j ==> x <= i
  {
    MembersGroup(s, j);
    hide Members;
    var g := Members(s, j);
    assert g[0] in g;
    forall i: nat | i < |s| && s[i] == j ensures g[0] <= i {
      assert i in g;
    }
  }

  /** The smallest symbols of length l, as many as counted, get one shorter. */
  function ShortenedFirst(s: seq<nat>, l: nat, count: nat): (r: seq<nat>)
    requires 1 <= l && count <= |Members(s, l)|
    ensures |r| == |s|
  {
    seq(|s|, i requires 0 <= i < |s| => if i in Members(s, l)[..count] then l - 1 else s[i])
  }

  function Smaller(a: nat, b: nat): nat { if a < b then a else b }

  /** Fills free slots from level ilen on: what a level cannot fill is due, doubled, at the next. */
  function Filled(s: seq<nat>, ilen: nat, space: nat, max: nat): (r: seq<nat>)
    requires 1 <= ilen <= max + 1
    ensures |r| == |s|
    decreases max + 1 - ilen
  {
    if space == 0 || ilen > max then s
    else
      var count := Smaller(|Members(s, ilen)|, space);
      Filled(ShortenedFirst(s, ilen, count), ilen + 1, 2 * (space - count), max)
  }

  /** The longest length below ilen that is in use, or 0. */
  function LongestUsed(s: seq<nat>, ilen: nat): (j: nat)
    ensures j == 0 || (j < ilen && Members(s, j) != [])
  {
    if ilen <= 1 then 0
    else if Members(s, ilen - 1) != [] then ilen - 1
    else LongestUsed(s, ilen - 1)
  }

  /** One pass at a set bit of the Kraft sum. */
  function Passed(s: seq<nat>, bit: nat, max: nat): (r: seq<nat>)
    requires bit < max && LongestUsed(s, max - bit) > 0
    ensures |r| == |s|
  {
    var ilen := max - bit;
    var j := LongestUsed(s, ilen);
    if ilen - j > 1 then Filled(Lengthened(s, j), ilen, Pow2(ilen - j - 1) - 1, max) else Lengthened(s, j)
  }

  // ----- what that means -----

  lemma {:induction false} LongestIs(s: seq<nat>, ilen: nat)
    ensures forall i :: 0 <= i < |s| && s[i] < ilen ==> s[i] <= LongestUsed(s, ilen)
  {
    hide Members;
    if ilen > 1 {
      MembersGroup(s, ilen - 1);
      if Members(s, ilen - 1) == [] {
        forall i | 0 <= i < |s| && s[i] < ilen ensures s[i] <= ilen - 2 {
          assert i in Members(s, ilen - 1) <==> s[i] == ilen - 1;
        }
        LongestIs(s, ilen - 1);
      }
    }
  }

  /** Symbols below level from stay, the others may lose one; smaller symbols and shorter lengths come first. */
  ghost predicate FirstsShorter(s: seq<nat>, r: seq<nat>, from: nat)
  {
    && |r| == |s|
    && (forall i :: 0 <= i < |s| ==> if s[i] < from then r[i] == s[i] else r[i] <= s[i] <= r[i] + 1)
    && (forall a, b :: 0 <= a < |s| && 0 <= b < |s| ==> Precedes(s, r, from, a, b))
  }

  ghost predicate Precedes(s: seq<nat>, r: seq<nat>, from: nat, a: int, b: int)
    requires 0 <= a < |s| == |r| && 0 <= b < |s|
  {
    r[b] < s[b] && from <= s[a] && (s[a] < s[b] || (s[a] == s[b] && a < b)) ==> r[a] < s[a]
  }

  lemma FirstsOfLevel(s: seq<nat>, l: nat, count: nat)
    requires 1 <= l && count <= |Members(s, l)|
    ensures var r := ShortenedFirst(s, l, count);
            && (forall i :: 0 <= i < |s| ==> if s[i] == l then l - 1 <= r[i] <= l else r[i] == s[i])
            && (forall a, b :: 0 <= a < b < |s| && s[a] == s[b] == l && r[b] < l ==> r[a] < l)
            && (count == |Members(s, l)| ==> forall i :: 0 <= i < |s| && s[i] == l ==> r[i] == l - 1)
  {
    MembersGroup(s, l);
    hide Members;
    var g := Members(s, l);
    forall i: nat | i < |s| && i in g[..count] ensures s[i] == l {
      assert i in g;
    }
    forall a: nat, b: nat | a < b < |s| && s[a] == s[b] == l && b in g[..count] ensures a in g[..count] {
      var k :| 0 <= k < count && g[..count][k] == b;
      assert a in g;
      var q :| 0 <= q < |g| && g[q] == a;
      assert q < k;
      assert g[..count][q] == a;
    }
    assert g[..|g|] == g;
  }

  lemma {:induction false} FilledFirsts(s: seq<nat>, ilen: nat, space: nat, max: nat)
    requires 1 <= ilen <= max + 1
    ensures FirstsShorter(s, Filled(s, ilen, space, max), ilen)
    decreases max + 1 - ilen
  {
    hide Members, ShortenedFirst;
    if space > 0 && ilen <= max {
      var count := Smaller(|Members(s, ilen)|, space);
      var s1, rest := ShortenedFirst(s, ilen, count), 2 * (space - count);
      FirstsOfLevel(s, ilen, count);
      FilledFirsts(s1, ilen + 1, rest, max);
      if rest == 0 {
        NothingFilled(s1, ilen + 1, max);
      }
      LevelThenRest(s, s1, Filled(s1, ilen + 1, rest, max), ilen, rest == 0);
    }
  }

  lemma NothingFilled(s: seq<nat>, ilen: nat, max: nat)
    requires 1 <= ilen <= max + 1
    ensures Filled(s, ilen, 0, max) == s
  {
  }

  /** A level is shortened, and the longer ones only if it was shortened as a whole. */
  lemma LevelThenRest(s: seq<nat>, s1: seq<nat>, r: seq<nat>, l: nat, done: bool)
    requires |s1| == |s| && 1 <= l && FirstsShorter(s1, r, l + 1) && (done ==> r == s1)
    requires forall i :: 0 <= i < |s| ==> if s[i] == l then l - 1 <= s1[i] <= l else s1[i] == s[i]
    requires forall a, b :: 0 <= a < b < |s| && s[a] == s[b] == l && s1[b] < l ==> s1[a] < l
    requires done || forall i :: 0 <= i < |s| && s[i] == l ==> s1[i] == l - 1
    ensures FirstsShorter(s, r, l)
  {
    forall a, b | 0 <= a < |s| && 0 <= b < |s| ensures Precedes(s, r, l, a, b) {
      assert Precedes(s1, r, l + 1, a, b);
    }
  }

  /**
    * A pass, said without lists. Of the longest length below the level of the bit the smallest symbol gets one longer. If
    * that is not the length just below, symbols from that level on get one shorter: shorter lengths first, and of one length
    * smaller symbols first.
    */
  ghost predicate OnePass(s: seq<nat>, r: seq<nat>, ilen: nat, x: nat)
  {
    && x < |s| == |r| && 0 < s[x] < ilen && r[x] == s[x] + 1
    && (forall i :: 0 <= i < |s| && s[i] < ilen ==> s[i] <= s[x] && (s[i] == s[x] ==> x <= i))
    && if s[x] + 1 == ilen then r == s[x := ilen] else FirstsShorter(s[x := s[x] + 1], r, ilen)
  }

  lemma PassedSays(s: seq<nat>, bit: nat, max: nat)
    requires bit < max && LongestUsed(s, max - bit) > 0
    ensures var j := LongestUsed(s, max - bit); Members(s, j) != [] && OnePass(s, Passed(s, bit, max), max - bit, Members(s, j)[0])
  {
    hide Members, FirstsShorter;
    var ilen := max - bit;
    var j := LongestUsed(s, ilen);
    FirstMember(s, j);
    LongestIs(s, ilen);
    if ilen - j > 1 {
      FilledFirsts(Lengthened(s, j), ilen, Pow2(ilen - j - 1) - 1, max);
      LengthenedStays(Lengthened(s, j), Passed(s, bit, max), ilen, Members(s, j)[0]);
    }
  }

  lemma LengthenedStays(s: seq<nat>, r: seq<nat>, from: nat, x: nat)
    requires FirstsShorter(s, r, from) && x < |s| && s[x] < from
    ensures |r| == |s| && r[x] == s[x]
  {
  }

  /** One pass never gives a symbol a longer code than one whose code was longer before. */
  lemma PassKeepsOrder(s: seq<nat>, r: seq<nat>, ilen: nat, x: nat, a: nat, b: nat)
    requires OnePass(s, r, ilen, x) && a < |s| && b < |s| && 0 < s[a] < s[b]
    ensures r[a] <= r[b]
  {
  }
}
