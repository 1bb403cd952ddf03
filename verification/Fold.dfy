/** Simple case folding as the search plan sees it: a finite permutation of scalar
    values. Following `Next` from any scalar walks a finite cycle, its orbit, and
    two scalars fold together when they lie on the same cycle. Scalars outside
    the table fold only to themselves. */
module Fold {
  import opened Utf8

  type Table = map<int, int>

  /** `unicode.SimpleFold`. */
  function Next(t: Table, r: int): int {
    if r in t then t[r] else r
  }

  ghost predicate Valid(t: Table) {
    && (forall r {:trigger Next(t, r)} :: r in t ==> IsScalar(r) && Next(t, r) in t)
    && (forall a, b :: Next(t, a) == Next(t, b) ==> a == b)
  }

  function Iter(t: Table, r: int, n: nat): (x: int)
    requires Valid(t)
    ensures r in t ==> x in t
    ensures r !in t ==> x == r
  {
    if n == 0 then r else Next(t, Iter(t, r, n - 1))
  }

  ghost predicate SameOrbit(t: Table, a: int, b: int)
    requires Valid(t)
  {
    exists n: nat :: Iter(t, a, n) == b
  }

  lemma {:induction false} IterAdd(t: Table, r: int, m: nat, n: nat)
    requires Valid(t)
    ensures Iter(t, Iter(t, r, m), n) == Iter(t, r, m + n)
  {
    if n > 0 {
      IterAdd(t, r, m, n - 1);
    }
  }

  /** A walk that meets itself has met its own start. */
  lemma {:induction false} Cancel(t: Table, r: int, i: nat, j: nat)
    requires Valid(t) && i <= j && Iter(t, r, i) == Iter(t, r, j)
    ensures Iter(t, r, j - i) == r
  {
    if i > 0 {
      Cancel(t, r, i - 1, j - 1);
    }
  }

  function Visited(t: Table, r: int, n: nat): set<int>
    requires Valid(t)
  {
    if n == 0 then {r} else Visited(t, r, n - 1) + {Iter(t, r, n)}
  }

  lemma {:induction false} VisitedAt(t: Table, r: int, n: nat, x: int) returns (k: nat)
    requires Valid(t) && x in Visited(t, r, n)
    ensures k <= n && Iter(t, r, k) == x
  {
    if n == 0 || Iter(t, r, n) == x {
      k := n;
    } else {
      k := VisitedAt(t, r, n - 1, x);
    }
  }

  ghost predicate NoReturnBy(t: Table, r: int, n: nat)
    requires Valid(t)
  {
    forall k: nat :: 0 < k <= n ==> Iter(t, r, k) != r
  }

  lemma {:induction false} NewPoint(t: Table, r: int, n: nat)
    requires Valid(t) && n > 0 && NoReturnBy(t, r, n)
    ensures Iter(t, r, n) !in Visited(t, r, n - 1)
  {
    var x := Iter(t, r, n);
    if x in Visited(t, r, n - 1) {
      var k := VisitedAt(t, r, n - 1, x);
      Cancel(t, r, k, n);
      assert false;
    }
  }

  /** The points of a walk are all different until it returns. */
  lemma {:induction false} Walked(t: Table, r: int, n: nat)
    requires Valid(t) && r in t && NoReturnBy(t, r, n)
    ensures Visited(t, r, n) <= t.Keys && |Visited(t, r, n)| == n + 1
  {
    if n > 0 {
      assert NoReturnBy(t, r, n - 1);
      Walked(t, r, n - 1);
      NewPoint(t, r, n);
    }
  }

  lemma {:induction false} SubsetSize<T>(a: set<T>, b: set<T>)
    requires a <= b
    ensures |a| <= |b|
  {
    assert b == a + (b - a);
  }

  /** Different values take as many places. */
  lemma {:induction false} Pigeons<T>(out: seq<T>, room: seq<T>)
    requires (forall i, j :: 0 <= i < j < |out| ==> out[i] != out[j]) && forall w :: w in out ==> w in room
    ensures |out| <= |room|
  {
    if out != [] {
      var last := out[|out| - 1];
      assert last in out;
      var k :| 0 <= k < |room| && room[k] == last;
      var rest := room[..k] + room[k + 1..];
      forall w | w in out[..|out| - 1] ensures w in rest {
        var i :| 0 <= i < |out| - 1 && out[i] == w;
        assert w in out;
        var at :| 0 <= at < |room| && room[at] == w;
        assert at < k ==> rest[at] == w;
        assert at > k ==> room[k + 1..][at - k - 1] == w;
      }
      Pigeons(out[..|out| - 1], rest);
    }
  }

  lemma {:induction false} Returns(t: Table, r: int)
    requires Valid(t)
    ensures exists n: nat :: n > 0 && Iter(t, r, n) == r
  {
    if r !in t {
      assert Iter(t, r, 1) == r;
    } else if NoReturnBy(t, r, |t.Keys|) {
      Walked(t, r, |t.Keys|);
      SubsetSize(Visited(t, r, |t.Keys|), t.Keys);
      assert false;
    }
  }

  ghost predicate IsPeriod(t: Table, r: int, n: nat)
    requires Valid(t)
  {
    n > 0 && Iter(t, r, n) == r && forall k: nat :: 0 < k < n ==> Iter(t, r, k) != r
  }

  lemma {:induction false} LeastReturn(t: Table, r: int, n: nat) returns (m: nat)
    requires Valid(t) && n > 0 && Iter(t, r, n) == r
    ensures IsPeriod(t, r, m)
  {
    if k: nat :| 0 < k < n && Iter(t, r, k) == r {
      m := LeastReturn(t, r, k);
    } else {
      m := n;
    }
  }

  /** The length of the cycle through `r`. */
  ghost function Period(t: Table, r: int): (n: nat)
    requires Valid(t)
    ensures IsPeriod(t, r, n)
  {
    Returns(t, r);
    var k: nat :| k > 0 && Iter(t, r, k) == r;
    assert exists m: nat :: IsPeriod(t, r, m) by { var m := LeastReturn(t, r, k); }
    var m: nat :| IsPeriod(t, r, m);
    m
  }

  /** Every orbit member is met within one period. */
  lemma {:induction false} WithinPeriod(t: Table, r: int, n: nat) returns (k: nat)
    requires Valid(t)
    ensures k < Period(t, r) && Iter(t, r, k) == Iter(t, r, n)
  {
    var m := Period(t, r);
    if n < m {
      k := n;
    } else {
      IterAdd(t, r, m, n - m);
      k := WithinPeriod(t, r, n - m);
    }
  }

  lemma {:induction false} OrbitReflexive(t: Table, a: int)
    requires Valid(t)
    ensures SameOrbit(t, a, a)
  {
    assert Iter(t, a, 0) == a;
  }

  lemma {:induction false} OrbitSymmetric(t: Table, a: int, b: int)
    requires Valid(t) && SameOrbit(t, a, b)
    ensures SameOrbit(t, b, a)
  {
    var n: nat :| Iter(t, a, n) == b;
    var k := WithinPeriod(t, a, n);
    IterAdd(t, a, k, Period(t, a) - k);
    assert Iter(t, b, Period(t, a) - k) == a;
  }

  lemma {:induction false} OrbitTransitive(t: Table, a: int, b: int, c: int)
    requires Valid(t) && SameOrbit(t, a, b) && SameOrbit(t, b, c)
    ensures SameOrbit(t, a, c)
  {
    var m: nat :| Iter(t, a, m) == b;
    var n: nat :| Iter(t, b, n) == c;
    IterAdd(t, a, m, n);
    assert Iter(t, a, m + n) == c;
  }

  lemma {:induction false} OrbitScalar(t: Table, a: int, b: int)
    requires Valid(t) && SameOrbit(t, a, b) && IsScalar(a)
    ensures IsScalar(b)
  {
    var n: nat :| Iter(t, a, n) == b;
    assert b in t ==> Next(t, b) == t[b];
  }

  /** One trip round the orbit of `r`: the loop shape the compiler uses everywhere.
      It visits exactly the scalars that fold together with `r`, each once. */
  method Orbit(t: Table, r: int) returns (members: seq<int>)
    requires Valid(t)
    ensures |members| == Period(t, r) && members[0] == r
    ensures forall x :: x in members <==> SameOrbit(t, r, x)
    ensures forall i, j :: 0 <= i < j < |members| ==> members[i] != members[j]
  {
    members := [r];
    var member := r;
    ghost var k := 0;
    while Next(t, member) != r
      invariant k < Period(t, r) && member == Iter(t, r, k)
      invariant |members| == k + 1
      invariant forall i :: 0 <= i <= k ==> members[i] == Iter(t, r, i)
      decreases Period(t, r) - k
    {
      assert Next(t, member) == Iter(t, r, k + 1);
      member := Next(t, member);
      members := members + [member];
      k := k + 1;
    }
    assert Iter(t, r, k + 1) == r;
    OrbitListed(t, r, members);
  }

  /** One period of the walk is the orbit, each member once. */
  lemma {:induction false} OrbitListed(t: Table, r: int, members: seq<int>)
    requires Valid(t) && |members| == Period(t, r) && forall i :: 0 <= i < |members| ==> members[i] == Iter(t, r, i)
    ensures forall x :: x in members <==> SameOrbit(t, r, x)
    ensures forall i, j :: 0 <= i < j < |members| ==> members[i] != members[j]
  {
    forall x | SameOrbit(t, r, x) ensures x in members {
      var n: nat :| Iter(t, r, n) == x;
      var i := WithinPeriod(t, r, n);
      assert members[i] == x;
    }
    forall i, j | 0 <= i < j < |members| ensures members[i] != members[j] {
      if members[i] == members[j] {
        Cancel(t, r, i, j);
        assert false;
      }
    }
  }

  // ----- what folding together is

  /** An equivalence that relates each scalar of the table to its successor. */
  ghost predicate FoldsNext(t: Table, same: (int, int) -> bool) {
    && (forall a :: same(a, a))
    && (forall a, b :: same(a, b) ==> same(b, a))
    && (forall a, b, c :: same(a, b) && same(b, c) ==> same(a, c))
    && forall r :: r in t ==> same(r, t[r])
  }

  lemma {:induction false} WalkFolds(t: Table, same: (int, int) -> bool, a: int, n: nat)
    requires Valid(t) && FoldsNext(t, same)
    ensures same(a, Iter(t, a, n))
  {
    if n > 0 {
      WalkFolds(t, same, a, n - 1);
      var b := Iter(t, a, n - 1);
      assert b in t ==> same(b, t[b]);
    }
  }

  lemma {:induction false} OrbitFolds(t: Table, same: (int, int) -> bool)
    requires Valid(t) && forall a, b :: same(a, b) <==> SameOrbit(t, a, b)
    ensures FoldsNext(t, same)
  {
    hide SameOrbit;
    forall a ensures same(a, a) {
      OrbitReflexive(t, a);
    }
    forall a, b | same(a, b) ensures same(b, a) {
      OrbitSymmetric(t, a, b);
    }
    forall a, b, c | same(a, b) && same(b, c) ensures same(a, c) {
      OrbitTransitive(t, a, b, c);
    }
    forall r | r in t ensures same(r, t[r]) {
      OrbitNext(t, r);
    }
  }

  lemma {:induction false} OrbitNext(t: Table, r: int)
    requires Valid(t) && r in t
    ensures SameOrbit(t, r, t[r])
  {
    assert Iter(t, r, 0) == r && Iter(t, r, 1) == t[r];
  }

  /** Folding together is the least equivalence that relates each scalar to its successor. */
  lemma {:induction false} LeastFold(t: Table, a: int, b: int)
    requires Valid(t)
    ensures a in t ==> SameOrbit(t, a, t[a])
    ensures SameOrbit(t, a, b) <==> forall same: (int, int) -> bool :: FoldsNext(t, same) ==> same(a, b)
  {
    if a in t {
      OrbitNext(t, a);
    }
    if SameOrbit(t, a, b) {
      forall same: (int, int) -> bool | FoldsNext(t, same) ensures same(a, b) {
        var n: nat :| Iter(t, a, n) == b;
        WalkFolds(t, same, a, n);
      }
    }
    if forall same: (int, int) -> bool :: FoldsNext(t, same) ==> same(a, b) {
      var same := (x: int, y: int) => Valid(t) && SameOrbit(t, x, y);
      OrbitFolds(t, same);
      assert same(a, b);
    }
  }

  // ----- widths

  /** The widest encoding among the first `n` points of the orbit of `r`. */
  function WidestOf(t: Table, r: int, n: nat): (w: nat)
    requires Valid(t) && IsScalar(r)
    ensures 1 <= w <= 4
  {
    if n == 0 then 1
    else
      IterScalar(t, r, n - 1);
      var before, here := WidestOf(t, r, n - 1), RuneLen(Iter(t, r, n - 1));
      if here > before then here else before
  }

  lemma {:induction false} IterScalar(t: Table, r: int, n: nat)
    requires Valid(t) && IsScalar(r)
    ensures IsScalar(Iter(t, r, n))
  {
    var b := Iter(t, r, n);
    assert b in t ==> Next(t, b) == t[b];
  }

  lemma {:induction false} WidestBounds(t: Table, r: int, n: nat, k: nat)
    requires Valid(t) && IsScalar(r) && k < n
    ensures IsScalar(Iter(t, r, k)) && RuneLen(Iter(t, r, k)) <= WidestOf(t, r, n)
  {
    IterScalar(t, r, k);
    if k < n - 1 {
      WidestBounds(t, r, n - 1, k);
    }
  }

  /** The widest UTF-8 encoding in the orbit of `r`. */
  ghost function Widest(t: Table, r: int): (w: nat)
    requires Valid(t) && IsScalar(r)
    ensures 1 <= w <= 4
  {
    WidestOf(t, r, Period(t, r))
  }

  lemma {:induction false} WidestInOrbit(t: Table, r: int, x: int)
    requires Valid(t) && IsScalar(r) && SameOrbit(t, r, x)
    ensures IsScalar(x) && RuneLen(x) <= Widest(t, r)
  {
    var n: nat :| Iter(t, r, n) == x;
    var k := WithinPeriod(t, r, n);
    WidestBounds(t, r, Period(t, r), k);
  }

  /** Some point of the walk is as wide as that. */
  lemma {:induction false} WidestMet(t: Table, r: int, n: nat) returns (k: nat)
    requires Valid(t) && IsScalar(r) && n > 0
    ensures k < n && IsScalar(Iter(t, r, k)) && RuneLen(Iter(t, r, k)) == WidestOf(t, r, n)
  {
    var last: nat := n - 1;
    IterScalar(t, r, last);
    if last > 0 && WidestOf(t, r, last) >= RuneLen(Iter(t, r, last)) {
      k := WidestMet(t, r, last);
    } else {
      k := last;
    }
  }

  /** The widest is a bound on the encodings of the orbit, and one of them reaches it. */
  lemma {:induction false} WidestIsMax(t: Table, r: int)
    requires Valid(t) && IsScalar(r)
    ensures forall x :: SameOrbit(t, r, x) ==> IsScalar(x) && |Encode(x)| <= Widest(t, r)
    ensures exists x :: SameOrbit(t, r, x) && IsScalar(x) && |Encode(x)| == Widest(t, r)
  {
    hide Encode;
    forall x | SameOrbit(t, r, x) ensures IsScalar(x) && |Encode(x)| <= Widest(t, r) {
      WidestInOrbit(t, r, x);
    }
    var k := WidestMet(t, r, Period(t, r));
    assert SameOrbit(t, r, Iter(t, r, k));
  }

  lemma {:induction false} NothingWide(t: Table, r: int)
    requires Valid(t) && IsScalar(r)
    ensures WidestOf(t, r, 0) == 1
  {
  }

  lemma {:induction false} WidestNext(t: Table, r: int, k: nat)
    requires Valid(t) && IsScalar(r)
    ensures IsScalar(Iter(t, r, k))
    ensures var before, here := WidestOf(t, r, k), RuneLen(Iter(t, r, k));
            WidestOf(t, r, k + 1) == if here > before then here else before
  {
    IterScalar(t, r, k);
  }

  /** The width of the widest encoding of any scalar that folds with `r`. */
  method MaxFoldRuneWidth(t: Table, r: int) returns (maxWidth: nat)
    requires Valid(t) && IsScalar(r)
    ensures maxWidth == Widest(t, r)
    ensures forall x :: SameOrbit(t, r, x) ==> IsScalar(x) && |Encode(x)| <= maxWidth
    ensures exists x :: SameOrbit(t, r, x) && IsScalar(x) && |Encode(x)| == maxWidth
  {
    hide Encode, WidestOf, SameOrbit;
    WidestIsMax(t, r);
    maxWidth := 1;
    NothingWide(t, r);
    var member := r;
    ghost var k := 0;
    while true
      invariant k < Period(t, r) && member == Iter(t, r, k)
      invariant maxWidth == WidestOf(t, r, k)
      decreases Period(t, r) - k
    {
      WidestNext(t, r, k);
      if RuneLen(member) > maxWidth {
        maxWidth := RuneLen(member);
      }
      if Next(t, member) == r {
        assert Iter(t, r, k + 1) == r;
        return;
      }
      assert Iter(t, r, k + 1) == Next(t, member);
      member := Next(t, member);
      k := k + 1;
    }
  }

  /** The two cases of each ASCII letter fold together, as they do in Unicode. */
  ghost predicate FoldsAsciiLetters(t: Table) {
    Valid(t) && forall c {:trigger SameOrbit(t, c, c + 0x20)} :: 'A' as int <= c <= 'Z' as int ==> SameOrbit(t, c, c + 0x20)
  }

  predicate CasePair(a: int, b: int) {
    'A' as int <= a <= 'Z' as int && b == a + 0x20
  }

  /** ASCII characters fold together exactly when they are equal or the two cases of one
      letter, as in Unicode; either may also fold with characters beyond ASCII. */
  ghost predicate FoldsAscii(t: Table) {
    && Valid(t)
    && forall a: int, b: int {:trigger SameOrbit(t, a, b)} :: 0 <= a < 0x80 && 0 <= b < 0x80 ==>
         (SameOrbit(t, a, b) <==> a == b || CasePair(a, b) || CasePair(b, a))
  }

  lemma {:induction false} AsciiLettersFold(t: Table)
    requires FoldsAscii(t)
    ensures FoldsAsciiLetters(t)
  {
    forall c {:trigger CasePair(c, c + 0x20)} | 'A' as int <= c <= 'Z' as int ensures SameOrbit(t, c, c + 0x20) {
      assert CasePair(c, c + 0x20);
    }
  }
}
