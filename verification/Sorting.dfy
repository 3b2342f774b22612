/** The result of sorting, for orders that leave no choice. */
module Sorting {

  function Insert<T>(before: (T, T) -> bool, s: seq<T>, x: T): (r: seq<T>)
    ensures |r| == |s| + 1
  {
    if s == [] || before(x, s[0]) then [x] + s else [s[0]] + Insert(before, s[1..], x)
  }

  /** What sorting by an order in which no two different elements are equal leaves. */
  function Sorted<T>(before: (T, T) -> bool, s: seq<T>): (r: seq<T>)
    ensures |r| == |s|
  {
    if s == [] then [] else Insert(before, Sorted(before, s[1..]), s[0])
  }

  ghost predicate InOrder<T>(before: (T, T) -> bool, s: seq<T>)
  {
    forall i, j :: 0 <= i < j < |s| ==> before(s[i], s[j])
  }

  /** Any two different elements are ordered, and the order is transitive. */
  ghost predicate Total<T(!new)>(before: (T, T) -> bool)
  {
    && (forall x, y :: before(x, y) || before(y, x) || x == y)
    && forall x, y, z :: before(x, y) && before(y, z) ==> before(x, z)
  }

  lemma {:induction false} InsertMembers<T>(before: (T, T) -> bool, s: seq<T>, x: T)
    ensures forall y :: y in Insert(before, s, x) <==> y in s || y == x
  {
    if !(s == [] || before(x, s[0])) {
      InsertMembers(before, s[1..], x);
      assert s == [s[0]] + s[1..];
    }
  }

  lemma {:induction false} SortedMembers<T>(before: (T, T) -> bool, s: seq<T>)
    ensures forall y :: y in Sorted(before, s) <==> y in s
  {
    if s != [] {
      SortedMembers(before, s[1..]);
      InsertMembers(before, Sorted(before, s[1..]), s[0]);
      assert s == [s[0]] + s[1..];
    }
  }

  /** Equal elements may stand next to each other only where the order allows it. */
  lemma {:induction false} InsertOrder<T(!new)>(before: (T, T) -> bool, s: seq<T>, x: T)
    requires Total(before) && InOrder(before, s) && (before(x, x) || x !in s)
    ensures InOrder(before, Insert(before, s, x))
  {
    if s != [] {
      if before(x, s[0]) {
        var r := [x] + s;
        forall j | 1 <= j < |r| ensures before(x, r[j]) {
          assert j > 1 ==> before(s[0], s[j - 1]);
        }
      } else {
        InsertOrder(before, s[1..], x);
        InsertMembers(before, s[1..], x);
        var rest := Insert(before, s[1..], x);
        forall j | 0 <= j < |rest| ensures before(s[0], rest[j]) {
          assert rest[j] in rest;
          if rest[j] in s[1..] {
            var q :| 0 <= q < |s| - 1 && s[1..][q] == rest[j];
            assert before(s[0], s[q + 1]);
          }
        }
      }
    }
  }

  lemma {:induction false} SortedOrder<T(!new)>(before: (T, T) -> bool, s: seq<T>)
    requires Total(before) && ((forall x :: before(x, x)) || forall i, j :: 0 <= i < j < |s| ==> s[i] != s[j])
    ensures InOrder(before, Sorted(before, s))
  {
    hide Total, InOrder;
    if s == [] {
      NothingToOrder(before);
    } else {
      assert forall i, j :: 0 <= i < j < |s[1..]| ==> s[1..][i] == s[i + 1] && s[1..][j] == s[j + 1];
      SortedOrder(before, s[1..]);
      SortedMembers(before, s[1..]);
      InsertOrder(before, Sorted(before, s[1..]), s[0]);
    }
  }

  lemma NothingToOrder<T>(before: (T, T) -> bool)
    ensures InOrder(before, [])
  {
  }
}
