/** The Burrows-Wheeler transform: sorted rotations one way, the last-to-first map the other. */
module Bwt {
  import opened BitStrings

  // ----- the order of rotations -----

  predicate Less(x: seq<byte>, y: seq<byte>)
    requires |x| == |y|
  {
    x != [] && (x[0] < y[0] || (x[0] == y[0] && Less(x[1..], y[1..])))
  }

  lemma {:induction false} LessAsym(x: seq<byte>, y: seq<byte>)
    requires |x| == |y| && Less(x, y)
    ensures !Less(y, x)
  {
    if x[0] == y[0] {
      LessAsym(x[1..], y[1..]);
    }
  }

  lemma {:induction false} LessTotal(x: seq<byte>, y: seq<byte>)
    requires |x| == |y| && !Less(x, y) && !Less(y, x)
    ensures x == y
  {
    if x != [] {
      LessTotal(x[1..], y[1..]);
      assert x == [x[0]] + x[1..] && y == [y[0]] + y[1..];
    }
  }

  lemma {:induction false} LessTrans(x: seq<byte>, y: seq<byte>, z: seq<byte>)
    requires |x| == |y| == |z|
    ensures !Less(y, x) && Less(y, z) ==> Less(x, z)
    ensures Less(x, y) && !Less(z, y) ==> Less(x, z)
  {
    if x != [] {
      LessTrans(x[1..], y[1..], z[1..]);
    }
  }

  /** A smaller beginning makes the whole smaller. */
  lemma {:induction false} PrefixLess(x: seq<byte>, y: seq<byte>, m: nat)
    requires |x| == |y| && m <= |x| && Less(x[..m], y[..m])
    ensures Less(x, y)
  {
    if x[0] == y[0] {
      assert x[..m][1..] == x[1..][..m - 1] && y[..m][1..] == y[1..][..m - 1];
      PrefixLess(x[1..], y[1..], m - 1);
    }
  }

  /** The rotation that starts at position i. */
  function Rotation(s: seq<byte>, i: nat): (r: seq<byte>)
    ensures |r| == |s|
  {
    seq(|s|, k requires 0 <= k < |s| => s[(i + k) % |s|])
  }

  function Before(i: nat, n: nat): (j: nat)
    requires i < n
    ensures j < n
  {
    (i + n - 1) % n
  }

  /** One rotation further left: its first byte is the last byte of the old one, the rest are the old ones in order. */
  lemma RotateRight(s: seq<byte>, i: nat)
    requires i < |s|
    ensures var r, q := Rotation(s, i), Rotation(s, Before(i, |s|));
            q[0] == r[|s| - 1] == s[Before(i, |s|)] && q[1..] == r[..|s| - 1]
  {
    hide Rotation;
    var n, a, b := |s|, Rotation(s, Before(i, |s|))[1..], Rotation(s, i)[..|s| - 1];
    forall k: nat | k < n - 1 ensures a[k] == b[k] {
      RotationAt(s, Before(i, n), k + 1);
      RotationAt(s, i, k);
      WrapStep(i, k, n);
    }
    RotationAt(s, Before(i, n), 0);
    RotationAt(s, i, n - 1);
    ModSelf(Before(i, n), n);
  }

  lemma RotationAt(s: seq<byte>, i: nat, k: nat)
    requires k < |s|
    ensures Rotation(s, i)[k] == s[(i + k) % |s|]
  {
  }

  lemma ModSelf(x: nat, n: nat)
    requires x < n
    ensures (x + 0) % n == x
  {
  }

  lemma WrapStep(i: nat, k: nat, n: nat)
    requires i < n && k + 1 < n
    ensures (Before(i, n) + (k + 1)) % n == (i + k) % n
  {
    hide Before;
    BeforeIs(i, n);
    if i == 0 {
      TurnBack(k, n);
    }
  }

  lemma TurnBack(k: nat, n: nat)
    requires k < n
    ensures (n - 1 + (k + 1)) % n == k % n
  {
    DivModUnique(1, n, k);
    DivModUnique(0, n, k);
  }

  // ----- what sorting gives -----

  ghost predicate Permutation(sa: seq<nat>, n: nat)
  {
    && |sa| == n && (forall i :: 0 <= i < n ==> sa[i] < n)
    && (forall i, j :: 0 <= i < j < n ==> sa[i] != sa[j])
    && (forall k: nat :: k < n ==> k in sa)
  }

  /** Any order of the rotations that the comparison cannot fault; equal rotations may come in any order. */
  ghost predicate Sorted(s: seq<byte>, sa: seq<nat>)
  {
    && Permutation(sa, |s|)
    && forall i, j :: 0 <= i < j < |s| ==> !Less(Rotation(s, sa[j]), Rotation(s, sa[i]))
  }

  function LastColumn(s: seq<byte>, sa: seq<nat>): (l: seq<byte>)
    requires |sa| == |s| && forall i :: 0 <= i < |s| ==> sa[i] < |s|
    ensures |l| == |s|
  {
    seq(|s|, j requires 0 <= j < |s| => s[Before(sa[j], |s|)])
  }

  // ----- ranks -----

  function CountEq(l: seq<byte>, c: nat): nat
  {
    if l == [] then 0 else CountEq(l[..|l| - 1], c) + if l[|l| - 1] as nat == c then 1 else 0
  }

  function CountBelow(l: seq<byte>, c: nat): nat
  {
    if l == [] then 0 else CountBelow(l[..|l| - 1], c) + if l[|l| - 1] < c then 1 else 0
  }

  /** Where row j goes in the first column: after all smaller bytes and the equal ones above it. */
  function LastToFirst(l: seq<byte>, j: nat): nat
    requires j < |l|
  {
    CountBelow(l, l[j]) + CountEq(l[..j], l[j])
  }

  /** The rows that come before row j when sorted by last byte, then by place. */
  ghost function RowsBefore(l: seq<byte>, j: nat, m: nat): set<nat>
    requires j < |l| && m <= |l|
  {
    set i: nat | i < m && (l[i] < l[j] || (l[i] == l[j] && i < j))
  }

  lemma {:induction false} RankIsCount(l: seq<byte>, j: nat, m: nat)
    requires j < |l| && m <= |l|
    ensures |RowsBefore(l, j, m)| == CountBelow(l[..m], l[j]) + CountEq(l[..if m < j then m else j], l[j])
    decreases m
  {
    if m == 0 {
      assert RowsBefore(l, j, 0) == {};
    } else {
      hide RowsBefore, CountBelow, CountEq;
      var i: nat := m - 1;
      RankIsCount(l, j, i);
      OneMoreRow(l, j, i);
      OneMoreBelow(l, i, l[j]);
      OneMoreEqual(l, i, l[j]);
    }
  }

  lemma OneMoreRow(l: seq<byte>, j: nat, i: nat)
    requires j < |l| && i < |l|
    ensures |RowsBefore(l, j, i + 1)|
         == |RowsBefore(l, j, i)| + if l[i] < l[j] || (l[i] == l[j] && i < j) then 1 else 0
  {
    var more := l[i] < l[j] || (l[i] == l[j] && i < j);
    assert RowsBefore(l, j, i + 1) == RowsBefore(l, j, i) + if more then {i} else {};
  }

  lemma OneMoreBelow(l: seq<byte>, i: nat, c: nat)
    requires i < |l|
    ensures CountBelow(l[..i + 1], c) == CountBelow(l[..i], c) + if l[i] < c then 1 else 0
  {
    assert l[..i + 1][..i] == l[..i];
  }

  lemma OneMoreEqual(l: seq<byte>, i: nat, c: nat)
    requires i < |l|
    ensures CountEq(l[..i + 1], c) == CountEq(l[..i], c) + if l[i] as nat == c then 1 else 0
  {
    assert l[..i + 1][..i] == l[..i];
  }

  // ----- cardinalities -----

  lemma {:induction false} SubsetSize(a: set<nat>, b: set<nat>)
    requires a <= b
    ensures |a| <= |b|
    decreases |a|
  {
    if a != {} {
      var x :| x in a;
      SubsetSize(a - {x}, b - {x});
    }
  }

  ghost function Below(n: nat): (b: set<nat>)
    ensures forall i: nat :: i in b <==> i < n
  {
    if n == 0 then {} else Below(n - 1) + {n - 1}
  }

  lemma {:induction false} BelowSize(n: nat)
    ensures |Below(n)| == n
  {
    if n == 0 {
      assert Below(0) == {};
    } else {
      BelowSize(n - 1);
      assert Below(n) == Below(n - 1) + {n - 1};
    }
  }

  ghost function Image(a: set<nat>, f: seq<nat>): set<nat>
    requires forall i :: i in a ==> i < |f|
  {
    set i | i in a :: f[i]
  }

  lemma {:induction false} ImageSize(a: set<nat>, f: seq<nat>)
    requires forall i :: i in a ==> i < |f|
    requires forall i, j :: i in a && j in a && i != j ==> f[i] != f[j]
    ensures |Image(a, f)| == |a|
    decreases |a|
  {
    if a == {} {
      assert Image(a, f) == {};
    } else {
      var x :| x in a;
      ImageSize(a - {x}, f);
      assert Image(a, f) == Image(a - {x}, f) + {f[x]};
    }
  }

  // ----- the last-to-first map -----

  /** The rotations smaller than a row's rotation, by their starting positions. */
  ghost function SmallerStarts(s: seq<byte>, x: seq<byte>): set<nat>
    requires |x| == |s|
  {
    set k: nat | k < |s| && Less(Rotation(s, k), x)
  }

  ghost function NotLargerStarts(s: seq<byte>, x: seq<byte>): set<nat>
    requires |x| == |s|
  {
    set k: nat | k < |s| && !Less(x, Rotation(s, k))
  }

  /** In sorted order, the row at position p holds x exactly when the counts of smaller rows fit. */
  lemma RowAt(s: seq<byte>, sa: seq<nat>, p: nat, x: seq<byte>)
    requires Sorted(s, sa) && p < |s| && |x| == |s|
    requires |SmallerStarts(s, x)| <= p < |NotLargerStarts(s, x)|
    ensures Rotation(s, sa[p]) == x
  {
    hide Less, Rotation;
    var row := Rotation(s, sa[p]);
    if Less(row, x) {
      TooManySmaller(s, sa, p, x);
      assert false;
    }
    if Less(x, row) {
      TooFewSmaller(s, sa, p, x);
      assert false;
    }
    LessTotal(row, x);
  }

  lemma TooManySmaller(s: seq<byte>, sa: seq<nat>, p: nat, x: seq<byte>)
    requires Sorted(s, sa) && p < |s| && |x| == |s| && Less(Rotation(s, sa[p]), x)
    ensures |SmallerStarts(s, x)| > p
  {
    hide *;
    var low := Below(p + 1);
    SmallerImage(s, sa, p, x, low);
    BelowSize(p + 1);
    ImageSize(low, sa);
    SubsetSize(Image(low, sa), SmallerStarts(s, x));
  }

  lemma SmallerImage(s: seq<byte>, sa: seq<nat>, p: nat, x: seq<byte>, low: set<nat>)
    requires Sorted(s, sa) && p < |s| && |x| == |s| && Less(Rotation(s, sa[p]), x) && low == Below(p + 1)
    ensures |sa| == |s| && (forall i :: i in low ==> i < |sa|)
    ensures forall i, j :: i in low && j in low && i != j ==> sa[i] != sa[j]
    ensures Image(low, sa) <= SmallerStarts(s, x)
  {
    hide Less, Rotation, Below;
    forall k | k in Image(low, sa) ensures k in SmallerStarts(s, x) {
      var i :| i in low && sa[i] == k;
      LessTrans(Rotation(s, k), Rotation(s, sa[p]), x);
    }
  }

  lemma TooFewSmaller(s: seq<byte>, sa: seq<nat>, p: nat, x: seq<byte>)
    requires Sorted(s, sa) && p < |s| && |x| == |s| && Less(x, Rotation(s, sa[p]))
    ensures |NotLargerStarts(s, x)| <= p
  {
    hide Less, Rotation;
    var low := Below(p);
    BelowSize(p);
    ImageSize(low, sa);
    forall k | k in NotLargerStarts(s, x) ensures k in Image(low, sa) {
      assert k in sa;
      var i :| 0 <= i < |s| && sa[i] == k;
      if i >= p {
        LessTrans(x, Rotation(s, sa[p]), Rotation(s, k));
      }
    }
    SubsetSize(NotLargerStarts(s, x), Image(low, sa));
  }

  /** The start of the row that row j becomes when its last byte moves to the front. */
  function Shifted(sa: seq<nat>): (f: seq<nat>)
    requires forall i :: 0 <= i < |sa| ==> sa[i] < |sa|
    ensures |f| == |sa|
  {
    seq(|sa|, i requires 0 <= i < |sa| => Before(sa[i], |sa|))
  }

  lemma BeforeInjective(i: nat, j: nat, n: nat)
    requires i < n && j < n && i != j
    ensures Before(i, n) != Before(j, n)
  {
    hide Before;
    BeforeIs(i, n);
    BeforeIs(j, n);
  }

  function After(i: nat, n: nat): nat { if i + 1 < n then i + 1 else 0 }

  lemma BeforeAfter(i: nat, n: nat)
    requires i < n
    ensures After(i, n) < n && Before(After(i, n), n) == i
  {
    hide Before;
    BeforeIs(After(i, n), n);
  }

  lemma BeforeIs(i: nat, n: nat)
    requires i < n
    ensures Before(i, n) == if i == 0 then n - 1 else i - 1
  {
    if i > 0 {
      DivModUnique(1, n, i - 1);
    }
  }

  /** The shifted starts are again all starts. */
  lemma ShiftedPermutes(sa: seq<nat>)
    requires Permutation(sa, |sa|)
    ensures Permutation(Shifted(sa), |sa|)
  {
    hide Before;
    var f, n := Shifted(sa), |sa|;
    forall i, j | 0 <= i < j < n ensures f[i] != f[j] {
      BeforeInjective(sa[i], sa[j], n);
    }
    forall k: nat | k < n ensures k in f {
      BeforeAfter(k, n);
      assert After(k, n) in sa;
      var i :| 0 <= i < n && sa[i] == After(k, n);
      assert f[i] == k;
    }
  }

  /** Comparing two shifted rows: first by last byte, then by place. */
  lemma ShiftedOrder(s: seq<byte>, sa: seq<nat>, i: nat, j: nat)
    requires Sorted(s, sa) && i < |s| && j < |s|
    requires var l := LastColumn(s, sa); l[i] < l[j] || (l[i] == l[j] && i <= j)
    ensures !Less(Rotation(s, Before(sa[j], |s|)), Rotation(s, Before(sa[i], |s|)))
  {
    hide Rotation, Before;
    var n := |s|;
    RotateRight(s, sa[i]);
    RotateRight(s, sa[j]);
    var a, b := Rotation(s, sa[i]), Rotation(s, sa[j]);
    if Less(b[..n - 1], a[..n - 1]) {
      PrefixLess(b, a, n - 1);
    }
    if i == j && Less(b, a) {
      LessAsym(b, a);
    }
  }

  /** The row reached by the last-to-first map holds the same text, rotated right by one. */
  lemma MapRotates(s: seq<byte>, sa: seq<nat>, j: nat)
    requires Sorted(s, sa) && j < |s|
    ensures var t := LastToFirst(LastColumn(s, sa), j);
            t < |s| && Rotation(s, sa[t]) == Rotation(s, Before(sa[j], |s|))
  {
    hide Less, Rotation, Before, LastToFirst;
    var l, n, x := LastColumn(s, sa), |s|, Rotation(s, Before(sa[j], |s|));
    var t := LastToFirst(l, j);
    RankOf(l, j);
    LowerCount(s, sa, j);
    UpperCount(s, sa, j);
    RowAt(s, sa, t, x);
  }

  lemma RankOf(l: seq<byte>, j: nat)
    requires j < |l|
    ensures LastToFirst(l, j) == |RowsBefore(l, j, |l|)| < |l|
  {
    RankIsCount(l, j, |l|);
    assert l[..|l|] == l;
    BelowSize(|l|);
    assert RowsBefore(l, j, |l|) <= Below(|l|) - {j};
    SubsetSize(RowsBefore(l, j, |l|), Below(|l|) - {j});
  }

  lemma LowerCount(s: seq<byte>, sa: seq<nat>, j: nat)
    requires Sorted(s, sa) && j < |s|
    ensures |SmallerStarts(s, Rotation(s, Before(sa[j], |s|)))| <= |RowsBefore(LastColumn(s, sa), j, |s|)|
  {
    hide Less, Rotation, Before;
    var l, n, x, f := LastColumn(s, sa), |s|, Rotation(s, Before(sa[j], |s|)), Shifted(sa);
    ShiftedPermutes(sa);
    var rows := RowsBefore(l, j, n);
    forall k | k in SmallerStarts(s, x) ensures k in Image(rows, f) {
      assert k in f;
      var i :| 0 <= i < n && f[i] == k;
      if !(i in rows) {
        ShiftedOrder(s, sa, j, i);
      }
    }
    SubsetSize(SmallerStarts(s, x), Image(rows, f));
    ImageSize(rows, f);
  }

  lemma UpperCount(s: seq<byte>, sa: seq<nat>, j: nat)
    requires Sorted(s, sa) && j < |s|
    ensures |RowsBefore(LastColumn(s, sa), j, |s|)| < |NotLargerStarts(s, Rotation(s, Before(sa[j], |s|)))|
  {
    hide Less, Rotation, Before;
    var l, n, x, f := LastColumn(s, sa), |s|, Rotation(s, Before(sa[j], |s|)), Shifted(sa);
    ShiftedPermutes(sa);
    var rows := RowsBefore(l, j, n) + {j};
    forall k | k in Image(rows, f) ensures k in NotLargerStarts(s, x) {
      var i :| i in rows && f[i] == k;
      ShiftedOrder(s, sa, i, j);
    }
    SubsetSize(Image(rows, f), NotLargerStarts(s, x));
    ImageSize(rows, f);
  }

  // ----- applying -----

  /** The comparison handed to the sort: the first difference between two rotations, 0 if there is none. */
  method Compare(s: seq<byte>, ia: nat, ib: nat) returns (r: int)
    requires s != []
    ensures (r < 0 <==> Less(Rotation(s, ia), Rotation(s, ib))) && (r > 0 <==> Less(Rotation(s, ib), Rotation(s, ia)))
    ensures r == 0 <==> Rotation(s, ia) == Rotation(s, ib)
  {
    hide Rotation, Less;
    var a, b := Rotation(s, ia), Rotation(s, ib);
    var k := 0;
    while k < |s|
      invariant k <= |s| && a[..k] == b[..k]
    {
      RotationAt(s, ia, k);
      RotationAt(s, ib, k);
      var ca, cb := s[(ia + k) % |s|], s[(ib + k) % |s|];
      if ca != cb {
        FirstDifference(a, b, k);
        return ca as int - cb as int;
      }
      assert a[..k + 1] == a[..k] + [a[k]] && b[..k + 1] == b[..k] + [b[k]];
      k := k + 1;
    }
    assert a[..|s|] == a && b[..|s|] == b;
    NotLessSelf(a);
    return 0;
  }

  lemma {:induction false} NotLessSelf(a: seq<byte>)
    ensures !Less(a, a)
  {
    if a != [] {
      NotLessSelf(a[1..]);
    }
  }

  lemma {:induction false} FirstDifference(a: seq<byte>, b: seq<byte>, k: nat)
    requires |a| == |b| && k < |a| && a[..k] == b[..k] && a[k] != b[k]
    ensures (Less(a, b) <==> a[k] < b[k]) && (Less(b, a) <==> b[k] < a[k])
  {
    if k > 0 {
      assert a[0] == a[..k][0] && b[0] == b[..k][0];
      assert a[1..][..k - 1] == a[..k][1..] && b[1..][..k - 1] == b[..k][1..];
      FirstDifference(a[1..], b[1..], k - 1);
    }
  }

  /** The transform, given the order the sort produced. */
  method Apply(data: seq<byte>, sa: seq<nat>) returns (out: seq<byte>, primary: nat)
    requires Sorted(data, sa)
    ensures out == LastColumn(data, sa)
    ensures data != [] ==> primary < |data| && sa[primary] == 0
    ensures data == [] ==> primary == 0
  {
    hide Less, Rotation;
    primary := 0;
    var len := |data|;
    var result := new byte[len](_ => 0);
    assert data != [] ==> 0 in sa;
    for i := 0 to len
      invariant forall k: nat :: k < i ==> result[k] == data[Before(sa[k], len)]
      invariant if 0 in sa[..i] then primary < i && sa[primary] == 0 else primary == 0
    {
      assert sa[..i + 1] == sa[..i] + [sa[i]];
      if sa[i] == 0 {
        primary := i;
      }
      result[i] := data[(sa[i] + len - 1) % len];
    }
    assert sa[..len] == sa;
    out := result[..];
  }

  // ----- reverting -----

  /** The row reached after k steps of the map. */
  function Walk(l: seq<byte>, idx: nat, k: nat): (j: nat)
    requires idx < |l|
    ensures j < |l|
  {
    if k == 0 then idx else RankOf(l, Walk(l, idx, k - 1)); LastToFirst(l, Walk(l, idx, k - 1))
  }

  /** The text read backwards along the walk. */
  function Reverted(l: seq<byte>, idx: nat): (s: seq<byte>)
    requires idx < |l|
    ensures |s| == |l|
  {
    seq(|l|, i requires 0 <= i < |l| => l[Walk(l, idx, |l| - 1 - i)])
  }

  /** Every step of the walk goes one position further left in the text. */
  lemma {:induction false} WalkRotates(s: seq<byte>, sa: seq<nat>, primary: nat, k: nat)
    requires Sorted(s, sa) && primary < |s| && sa[primary] == 0 && k < |s|
    ensures Rotation(s, sa[Walk(LastColumn(s, sa), primary, k)]) == Rotation(s, (|s| - k) % |s|)
  {
    hide Rotation, LastToFirst, Before;
    var l, n := LastColumn(s, sa), |s|;
    if k == 0 {
      WrapZero(n);
    } else {
      WalkRotates(s, sa, primary, k - 1);
      var j := Walk(l, primary, k - 1);
      RankOf(l, j);
      MapRotates(s, sa, j);
      SameShift(s, sa[j], (n - (k - 1)) % n);
      StepLeft(n, k);
    }
  }

  lemma WrapZero(n: nat)
    requires n > 0
    ensures (n - 0) % n == 0
  {
  }

  lemma StepLeft(n: nat, k: nat)
    requires 1 <= k < n
    ensures (n - (k - 1)) % n < n && Before((n - (k - 1)) % n, n) == (n - k) % n
  {
    hide Before;
    var i := (n - (k - 1)) % n;
    if k == 1 {
      WrapZero(n);
    } else {
      ModSelf(n - (k - 1), n);
    }
    BeforeIs(i, n);
    ModSelf(n - k, n);
  }

  /** Equal rotations stay equal when both turn right by one. */
  lemma SameShift(s: seq<byte>, a: nat, b: nat)
    requires a < |s| && b < |s| && Rotation(s, a) == Rotation(s, b)
    ensures Rotation(s, Before(a, |s|)) == Rotation(s, Before(b, |s|))
  {
    hide Rotation, Before;
    RotateRight(s, a);
    RotateRight(s, b);
    var x, y := Rotation(s, Before(a, |s|)), Rotation(s, Before(b, |s|));
    assert x == [x[0]] + x[1..] && y == [y[0]] + y[1..];
  }

  /** Reverting the last column from the row of the text itself gives the text, periodic or not. */
  lemma RevertsApply(s: seq<byte>, sa: seq<nat>, primary: nat)
    requires Sorted(s, sa) && primary < |s| && sa[primary] == 0
    ensures Reverted(LastColumn(s, sa), primary) == s
  {
    hide Rotation, LastToFirst, Before, Walk, Less;
    var l, n := LastColumn(s, sa), |s|;
    var r := Reverted(l, primary);
    forall i: nat | i < n ensures r[i] == s[i] {
      var j := Walk(l, primary, n - 1 - i);
      WalkRotates(s, sa, primary, n - 1 - i);
      LastOfRow(s, sa, j, i);
    }
  }

  lemma LastOfRow(s: seq<byte>, sa: seq<nat>, j: nat, i: nat)
    requires Sorted(s, sa) && j < |s| && i < |s| && Rotation(s, sa[j]) == Rotation(s, (|s| - (|s| - 1 - i)) % |s|)
    ensures LastColumn(s, sa)[j] == s[i]
  {
    hide Rotation, Before;
    var n := |s|;
    var b := (n - (n - 1 - i)) % n;
    RotateRight(s, sa[j]);
    RotateRight(s, b);
    BeforeIs(b, n);
    NextOf(n, i);
  }

  lemma NextOf(n: nat, i: nat)
    requires i < n
    ensures (n - (n - 1 - i)) % n == After(i, n)
  {
    if i + 1 < n {
      ModSelf(i + 1, n);
    } else {
      WrapZero(n);
    }
  }

  lemma CountEqStep(l: seq<byte>, i: nat, c: nat)
    requires i < |l|
    ensures CountEq(l[..i + 1], c) == CountEq(l[..i], c) + if l[i] as nat == c then 1 else 0
    ensures CountEq(l[..0], c) == 0
  {
    assert l[..i + 1][..i] == l[..i];
  }

  lemma {:induction false} CountBelowNext(l: seq<byte>, c: nat)
    ensures CountBelow(l, c + 1) == CountBelow(l, c) + CountEq(l, c)
    ensures CountBelow(l, 0) == 0
  {
    if l != [] {
      CountBelowNext(l[..|l| - 1], c);
    }
  }

  /** How often each byte occurs. */
  method CountBytes(l: seq<byte>) returns (count: array<nat>)
    ensures fresh(count) && count.Length == 256 && forall c: nat :: c < 256 ==> count[c] == CountEq(l, c)
  {
    count := new nat[256](_ => 0);
    for i := 0 to |l|
      invariant forall c: nat :: c < 256 ==> count[c] == CountEq(l[..i], c)
    {
      forall c: nat | c < 256 ensures CountEq(l[..i + 1], c) == CountEq(l[..i], c) + if l[i] as nat == c then 1 else 0 {
        CountEqStep(l, i, c);
      }
      count[l[i]] := count[l[i]] + 1;
    }
    assert l[..|l|] == l;
  }

  /** Where each byte's rows start in the first column. */
  method StartOf(l: seq<byte>, count: array<nat>) returns (start: array<nat>)
    requires count.Length == 256 && forall c: nat :: c < 256 ==> count[c] == CountEq(l, c)
    ensures fresh(start) && start.Length == 256 && forall c: nat :: c < 256 ==> start[c] == CountBelow(l, c)
  {
    start := new nat[256](_ => 0);
    var sum := 0;
    CountBelowNext(l, 0);
    for c := 0 to 256
      invariant sum == CountBelow(l, c) && forall k: nat :: k < c ==> start[k] == CountBelow(l, k)
      invariant forall k: nat :: k < 256 ==> count[k] == CountEq(l, k)
    {
      CountBelowNext(l, c);
      start[c] := sum;
      sum := sum + count[c];
    }
  }

  /** The last-to-first map for all rows. */
  method BuildMap(l: seq<byte>) returns (t: array<nat>)
    ensures fresh(t) && t.Length == |l| && forall j: nat :: j < |l| ==> t[j] == LastToFirst(l, j)
  {
    var total := CountBytes(l);
    var start := StartOf(l, total);
    var count := new nat[256](_ => 0);
    t := new nat[|l|](_ => 0);
    for i := 0 to |l|
      invariant forall c: nat :: c < 256 ==> count[c] == CountEq(l[..i], c)
      invariant forall c: nat :: c < 256 ==> start[c] == CountBelow(l, c)
      invariant forall j: nat :: j < i ==> t[j] == LastToFirst(l, j)
    {
      forall c: nat | c < 256 ensures CountEq(l[..i + 1], c) == CountEq(l[..i], c) + if l[i] as nat == c then 1 else 0 {
        CountEqStep(l, i, c);
      }
      t[i] := start[l[i]] + count[l[i]];
      count[l[i]] := count[l[i]] + 1;
    }
  }

  datatype Reversion = Reversion(out: seq<byte>) | Refused

  /** Rebuilds the text by following the map from the primary row; an index outside the data is refused. */
  method Revert(data: seq<byte>, primary: nat) returns (r: Reversion)
    ensures r == if data == [] then Reversion([]) else if primary >= |data| then Refused else Reversion(Reverted(data, primary))
  {
    hide LastToFirst, Walk;
    if data == [] {
      return Reversion([]);
    }
    if primary >= |data| {
      return Refused;
    }
    var n := |data|;
    var t := BuildMap(data);
    var result := new byte[n](_ => 0);
    var idx := primary;
    WalkStart(data, primary);
    for i := n downto 0
      invariant idx == Walk(data, primary, n - i) && idx < n
      invariant forall k: nat :: i <= k < n ==> result[k] == data[Walk(data, primary, n - 1 - k)]
      invariant forall j: nat :: j < n ==> t[j] == LastToFirst(data, j)
    {
      result[i] := data[idx];
      WalkNext(data, primary, n - 1 - i);
      idx := t[idx];
    }
    assert result[..] == Reverted(data, primary);
    r := Reversion(result[..]);
  }

  lemma WalkStart(l: seq<byte>, idx: nat)
    requires idx < |l|
    ensures Walk(l, idx, 0) == idx
  {
  }

  lemma WalkNext(l: seq<byte>, idx: nat, k: nat)
    requires idx < |l|
    ensures Walk(l, idx, k + 1) == LastToFirst(l, Walk(l, idx, k)) < |l|
  {
  }

  /** Transforming and reverting gives back every text, for any order the sort may return. */
  method RoundTrip(data: seq<byte>, sa: seq<nat>) returns (r: Reversion)
    requires Sorted(data, sa)
    ensures r == Reversion(data)
  {
    var out, primary := Apply(data, sa);
    r := Revert(out, primary);
    if data != [] {
      RevertsApply(data, sa, primary);
    }
  }
}
