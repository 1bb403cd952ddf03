/** What a search means. A haystack is read as code units: scalars decoded from
    UTF-8, and single opaque bytes where decoding fails (or everywhere, for an
    exact search). A pattern matches where its units agree with the haystack's,
    unit by unit. Find is the leftmost match, ties to the lowest pattern index;
    Each is the greedy sequence of such matches. */
module Spec {
  import opened Utf8
  import Fold

  datatype Option<+T> = None | Some(value: T)

  datatype CodeUnit = Rune(rune: int) | Raw(raw: byte)

  function Max(a: nat, b: nat): nat {
    if a < b then b else a
  }

  /** `exact` selects byte identity; otherwise units compare under `fold`. */
  datatype Mode = Mode(exact: bool, fold: Fold.Table) {
    ghost predicate Valid() {
      Fold.Valid(fold)
    }
  }

  datatype Hit = Hit(pattern: nat, start: nat)

  type Pattern = seq<CodeUnit>

  function SizeAt(m: Mode, s: Bytes, at: nat): (n: nat)
    requires at < |s|
    ensures 1 <= n <= 4 && at + n <= |s|
  {
    if m.exact || FormLen(s, at) == 0 then 1 else FormLen(s, at)
  }

  function UnitAt(m: Mode, s: Bytes, at: nat): (u: CodeUnit)
    requires at < |s|
    ensures u.Rune? ==> IsScalar(u.rune)
  {
    if m.exact || FormLen(s, at) == 0 then Raw(s[at]) else Rune(FormRune(s, at))
  }

  lemma {:induction false} SomeUnits(m: Mode, s: Bytes)
    requires s != []
    ensures Units(m, s) != []
  {
  }

  /** An ASCII byte is a unit of its own. */
  lemma {:induction false} AsciiUnit(m: Mode, s: Bytes, at: nat)
    requires at < |s| && IsAscii(s[at])
    ensures SizeAt(m, s, at) == 1 && (!m.exact ==> UnitAt(m, s, at) == Rune(s[at]))
  {
  }

  /** The units of a whole string. */
  function Units(m: Mode, s: Bytes, at: nat := 0): (us: seq<CodeUnit>)
    requires at <= |s|
    decreases |s| - at
  {
    if at == |s| then [] else [UnitAt(m, s, at)] + Units(m, s, at + SizeAt(m, s, at))
  }

  ghost predicate Same(m: Mode, a: CodeUnit, b: CodeUnit)
    requires m.Valid()
  {
    match (a, b)
    case (Rune(x), Rune(y)) => Fold.SameOrbit(m.fold, x, y)
    case (Raw(x), Raw(y)) => x == y
    case _ => false
  }

  /** Where a match of `p` that starts at `at` ends, if there is one. */
  ghost function MatchEnd(m: Mode, s: Bytes, at: nat, p: Pattern): (end: Option<nat>)
    requires m.Valid() && at <= |s|
    ensures end.Some? ==> at <= end.value <= |s|
    ensures end.Some? && |p| > 0 ==> at < end.value
    decreases |p|
  {
    if p == [] then Some(at)
    else if at == |s| || !Same(m, UnitAt(m, s, at), p[0]) then None
    else MatchEnd(m, s, at + SizeAt(m, s, at), p[1..])
  }

  /** The bytes `f` stand at the position `at`. */
  predicate StandsAt(h: Bytes, at: nat, f: Bytes) {
    at + |f| <= |h| && h[at..at + |f|] == f
  }

  lemma {:induction false} MatchNothing(m: Mode, s: Bytes, at: nat, p: Pattern)
    requires m.Valid() && at <= |s|
    ensures MatchEnd(m, s, at, p[..0]) == Some(at)
  {
  }

  ghost predicate MatchesAt(m: Mode, s: Bytes, at: nat, ps: seq<Pattern>, i: nat)
    requires m.Valid() && at <= |s|
  {
    i < |ps| && MatchEnd(m, s, at, ps[i]).Some?
  }

  /** The lowest pattern index that matches at `at`. */
  ghost function BestAt(m: Mode, s: Bytes, at: nat, ps: seq<Pattern>, from: nat := 0): (best: Option<nat>)
    requires m.Valid() && at <= |s| && from <= |ps|
    ensures best.Some? ==> from <= best.value < |ps| && MatchesAt(m, s, at, ps, best.value)
    ensures forall i: nat :: from <= i && MatchesAt(m, s, at, ps, i) ==> best.Some? && best.value <= i
    decreases |ps| - from
  {
    if from == |ps| then None
    else if MatchesAt(m, s, at, ps, from) then Some(from)
    else BestAt(m, s, at, ps, from + 1)
  }

  /** The first match at or after the unit boundary `at`. */
  ghost function FindFrom(m: Mode, s: Bytes, ps: seq<Pattern>, at: nat := 0): (hit: Option<Hit>)
    requires m.Valid() && at <= |s|
    ensures hit.Some? ==> at <= hit.value.start <= |s|
    decreases |s| - at
  {
    match BestAt(m, s, at, ps)
    case Some(i) => Some(Hit(i, at))
    case None => if at == |s| then None else FindFrom(m, s, ps, at + SizeAt(m, s, at))
  }

  // ----- unit boundaries

  /** All bytes of a unit after its first are continuation bytes. */
  lemma {:induction false} Interior(m: Mode, s: Bytes, at: nat, k: nat)
    requires at < k < |s| && k < at + SizeAt(m, s, at)
    ensures IsContinuation(s[k])
  {
  }

  /** Decoding from `a` reaches a unit boundary at `b`. */
  predicate Reaches(m: Mode, s: Bytes, a: nat, b: nat)
    requires b <= |s|
    decreases |s| - a
  {
    a == b || (a < b && Reaches(m, s, a + SizeAt(m, s, a), b))
  }

  /** Every byte that is not a continuation byte is a unit boundary, whatever
      precedes it, and so is the end of the string. */
  lemma {:induction false} NonContinuationIsBoundary(m: Mode, s: Bytes, a: nat, b: nat)
    requires a <= b <= |s| && (b < |s| ==> !IsContinuation(s[b]))
    ensures Reaches(m, s, a, b)
    decreases b - a
  {
    if a < b {
      if b < a + SizeAt(m, s, a) {
        Interior(m, s, a, b);
        assert false;
      }
      NonContinuationIsBoundary(m, s, a + SizeAt(m, s, a), b);
    }
  }

  lemma {:induction false} ReachesTransitive(m: Mode, s: Bytes, a: nat, b: nat, c: nat)
    requires a <= b <= c <= |s| && Reaches(m, s, a, b) && Reaches(m, s, b, c)
    ensures Reaches(m, s, a, c)
    decreases b - a
  {
    if a < b {
      ReachesTransitive(m, s, a + SizeAt(m, s, a), b, c);
    }
  }

  /** The next boundary on the way from `a` that is at or after `b`. */
  function BoundaryAfter(m: Mode, s: Bytes, a: nat, b: nat): (c: nat)
    requires a <= |s| && b <= |s|
    ensures b <= c <= |s| && a <= c && Reaches(m, s, a, c)
    ensures forall k :: b <= k < c && a < k ==> IsContinuation(s[k])
    decreases |s| - a
  {
    if b <= a then a else BoundaryAfter(m, s, a + SizeAt(m, s, a), b)
  }

  /** Boundaries reached from the same place and not separated by one another. */
  lemma {:induction false} ReachesThrough(m: Mode, s: Bytes, a: nat, b: nat, c: nat)
    requires a <= b <= c <= |s| && Reaches(m, s, a, b) && Reaches(m, s, a, c)
    ensures Reaches(m, s, b, c)
    decreases b - a
  {
    if a < b {
      ReachesThrough(m, s, a + SizeAt(m, s, a), b, c);
    }
  }

  // ----- Find as a least element

  ghost predicate NoMatchIn(m: Mode, s: Bytes, ps: seq<Pattern>, a: nat, b: nat)
    requires m.Valid() && b <= |s|
  {
    forall q :: a <= q < b && Reaches(m, s, a, q) ==> BestAt(m, s, q, ps) == None
  }

  /** Find may start at any boundary before which nothing matches. */
  lemma {:induction false} FindSkips(m: Mode, s: Bytes, ps: seq<Pattern>, a: nat, b: nat)
    requires m.Valid() && a <= b <= |s| && Reaches(m, s, a, b)
    requires NoMatchIn(m, s, ps, a, b)
    ensures FindFrom(m, s, ps, a) == FindFrom(m, s, ps, b)
    decreases b - a
  {
    if a < b {
      var c := a + SizeAt(m, s, a);
      assert BestAt(m, s, a, ps) == None;
      assert NoMatchIn(m, s, ps, c, b) by {
        forall q | c <= q < b && Reaches(m, s, c, q) ensures BestAt(m, s, q, ps) == None {
          assert Reaches(m, s, a, q);
        }
      }
      FindSkips(m, s, ps, c, b);
    }
  }

  lemma {:induction false} NoMatchBefore(m: Mode, s: Bytes, ps: seq<Pattern>, a: nat, b: nat)
    requires m.Valid() && a < |s| && b <= |s| && BestAt(m, s, a, ps) == None
    requires NoMatchIn(m, s, ps, a + SizeAt(m, s, a), b)
    ensures NoMatchIn(m, s, ps, a, b)
  {
  }

  ghost predicate IsLeast(m: Mode, s: Bytes, ps: seq<Pattern>, a: nat, hit: Option<Hit>)
    requires m.Valid() && a <= |s|
  {
    match hit
    case Some(h) =>
      && a <= h.start <= |s| && Reaches(m, s, a, h.start)
      && BestAt(m, s, h.start, ps) == Some(h.pattern) && NoMatchIn(m, s, ps, a, h.start)
    case None => BestAt(m, s, |s|, ps) == None && NoMatchIn(m, s, ps, a, |s|)
  }

  /** What Find returns is reached, and nothing reached before it matches. */
  lemma {:induction false} FindIsLeast(m: Mode, s: Bytes, ps: seq<Pattern>, a: nat)
    requires m.Valid() && a <= |s|
    ensures IsLeast(m, s, ps, a, FindFrom(m, s, ps, a))
    decreases |s| - a
  {
    if BestAt(m, s, a, ps) == None && a < |s| {
      var c := a + SizeAt(m, s, a);
      var hit := FindFrom(m, s, ps, c);
      assert FindFrom(m, s, ps, a) == hit;
      FindIsLeast(m, s, ps, c);
      NoMatchBefore(m, s, ps, a, if hit.Some? then hit.value.start else |s|);
    }
  }

  /** The converse: a reached match with nothing before it is what Find returns. */
  lemma {:induction false} FindIs(m: Mode, s: Bytes, ps: seq<Pattern>, a: nat, hit: Hit)
    requires m.Valid() && a <= |s| && IsLeast(m, s, ps, a, Some(hit))
    ensures FindFrom(m, s, ps, a) == Some(hit)
  {
    FindSkips(m, s, ps, a, hit.start);
  }

  lemma {:induction false} FindIsNone(m: Mode, s: Bytes, ps: seq<Pattern>, a: nat)
    requires m.Valid() && a <= |s| && IsLeast(m, s, ps, a, None)
    ensures FindFrom(m, s, ps, a) == None
  {
    NonContinuationIsBoundary(m, s, a, |s|);
    FindSkips(m, s, ps, a, |s|);
  }

  // ----- substrings

  function Shift(hit: Option<Hit>, k: nat): Option<Hit> {
    match hit
    case None => None
    case Some(h) => Some(Hit(h.pattern, h.start + k))
  }

  lemma {:induction false} UnitSuffix(m: Mode, s: Bytes, k: nat, at: nat)
    requires k <= |s| && at < |s| - k
    ensures UnitAt(m, s[k..], at) == UnitAt(m, s, k + at)
    ensures SizeAt(m, s[k..], at) == SizeAt(m, s, k + at)
  {
  }

  ghost predicate Shifted(short: Option<nat>, long: Option<nat>, k: nat) {
    if short.Some? then long == Some(short.value + k) else long == None
  }

  lemma {:induction false} MatchSuffix(m: Mode, s: Bytes, k: nat, at: nat, p: Pattern)
    requires m.Valid() && k <= |s| && at <= |s| - k
    ensures Shifted(MatchEnd(m, s[k..], at, p), MatchEnd(m, s, k + at, p), k)
    decreases |p|
  {
    hide Same, FormLen, FormRune, SizeAt, UnitAt;
    var t := s[k..];
    if p != [] && at < |t| {
      UnitSuffix(m, s, k, at);
      var n := SizeAt(m, t, at);
      MatchSuffix(m, s, k, at + n, p[1..]);
      if Same(m, UnitAt(m, t, at), p[0]) {
        assert MatchEnd(m, t, at, p) == MatchEnd(m, t, at + n, p[1..]);
        assert MatchEnd(m, s, k + at, p) == MatchEnd(m, s, k + (at + n), p[1..]);
      }
    }
  }

  lemma {:induction false} BestAgrees(m: Mode, s: Bytes, a: nat, s': Bytes, a': nat, ps: seq<Pattern>)
    requires m.Valid() && a <= |s| && a' <= |s'|
    requires forall i: nat :: i < |ps| ==> MatchesAt(m, s, a, ps, i) == MatchesAt(m, s', a', ps, i)
    ensures BestAt(m, s, a, ps) == BestAt(m, s', a', ps)
  {
  }

  lemma {:induction false} BestSuffix(m: Mode, s: Bytes, k: nat, at: nat, ps: seq<Pattern>)
    requires m.Valid() && k <= |s| && at <= |s| - k
    ensures BestAt(m, s[k..], at, ps) == BestAt(m, s, k + at, ps)
  {
    forall i: nat | i < |ps| ensures MatchesAt(m, s[k..], at, ps, i) == MatchesAt(m, s, k + at, ps, i) {
      MatchSuffix(m, s, k, at, ps[i]);
    }
    BestAgrees(m, s[k..], at, s, k + at, ps);
  }

  /** A search of a suffix is the search of the whole from there. */
  lemma {:induction false} FindSuffix(m: Mode, s: Bytes, ps: seq<Pattern>, k: nat, at: nat)
    requires m.Valid() && k <= |s| && at <= |s| - k
    ensures Shift(FindFrom(m, s[k..], ps, at), k) == FindFrom(m, s, ps, k + at)
    decreases |s| - at
  {
    hide BestAt, SizeAt;
    BestSuffix(m, s, k, at, ps);
    if BestAt(m, s, k + at, ps) == None && at < |s| - k {
      UnitSuffix(m, s, k, at);
      var n := SizeAt(m, s, k + at);
      FindSuffix(m, s, ps, k, at + n);
      assert FindFrom(m, s[k..], ps, at) == FindFrom(m, s[k..], ps, at + n);
      assert FindFrom(m, s, ps, k + at) == FindFrom(m, s, ps, k + (at + n));
    }
  }

  /** A place where no unit can straddle, so that cutting there splits none. */
  predicate SafeCut(s: Bytes, n: nat) {
    n <= |s| && (n == 0 || n == |s| || IsAscii(s[n - 1]) || !IsContinuation(s[n]))
  }

  lemma {:induction false} UnitCut(m: Mode, s: Bytes, n: nat, at: nat)
    requires SafeCut(s, n) && at < n
    ensures UnitAt(m, s[..n], at) == UnitAt(m, s, at)
    ensures SizeAt(m, s[..n], at) == SizeAt(m, s, at)
  {
  }

  /** After a safe cut exactly the matches that end by the cut remain. */
  lemma {:induction false} MatchCut(m: Mode, s: Bytes, n: nat, at: nat, p: Pattern)
    requires m.Valid() && SafeCut(s, n) && at <= n
    ensures var short, long := MatchEnd(m, s[..n], at, p), MatchEnd(m, s, at, p);
            if long.Some? && long.value <= n then short == long else short == None
    decreases |p|
  {
    if |p| > 0 && at < n {
      UnitCut(m, s, n, at);
      MatchCut(m, s, n, at + SizeAt(m, s, at), p[1..]);
    }
  }

  lemma {:induction false} ReachesCut(m: Mode, s: Bytes, n: nat, a: nat, b: nat)
    requires SafeCut(s, n) && b <= n
    ensures Reaches(m, s[..n], a, b) == Reaches(m, s, a, b)
    decreases |s| - a
  {
    if a < b {
      UnitCut(m, s, n, a);
      ReachesCut(m, s, n, a + SizeAt(m, s, a), b);
    }
  }

  /** A safe cut is a boundary. */
  lemma {:induction false} SafeCutIsBoundary(m: Mode, s: Bytes, a: nat, n: nat)
    requires SafeCut(s, n) && a <= n
    ensures Reaches(m, s, a, n)
    decreases n - a
  {
    if a < n {
      SafeCutIsBoundary(m, s, a + SizeAt(m, s, a), n);
    }
  }

  // ----- pattern sets and their spans

  ghost function AllUnits(m: Mode, patterns: seq<Bytes>): (ps: seq<Pattern>)
    ensures |ps| == |patterns|
    ensures forall i :: 0 <= i < |ps| ==> ps[i] == Units(m, patterns[i])
  {
    seq(|patterns|, i requires 0 <= i < |patterns| => Units(m, patterns[i]))
  }

  ghost predicate Encodable(p: Pattern) {
    forall j :: 0 <= j < |p| && p[j].Rune? ==> IsScalar(p[j].rune)
  }

  lemma {:induction false} UnitsEncodable(m: Mode, s: Bytes, at: nat)
    requires at <= |s|
    ensures Encodable(Units(m, s, at))
    decreases |s| - at
  {
    if at < |s| {
      UnitsEncodable(m, s, at + SizeAt(m, s, at));
    }
  }

  /** The widest source spelling of one pattern unit. */
  ghost function UnitSpan(m: Mode, u: CodeUnit): (n: nat)
    requires m.Valid() && (u.Rune? ==> IsScalar(u.rune))
  {
    if u.Rune? then Fold.Widest(m.fold, u.rune) else 1
  }

  ghost function Span(m: Mode, p: Pattern): nat
    requires m.Valid() && Encodable(p)
  {
    if p == [] then 0 else Span(m, p[..|p| - 1]) + UnitSpan(m, p[|p| - 1])
  }

  lemma {:induction false} SpanEmpty(m: Mode)
    requires m.Valid()
    ensures Span(m, []) == 0
  {
  }

  lemma {:induction false} SpanStep(m: Mode, p: Pattern, j: nat)
    requires m.Valid() && Encodable(p) && j < |p|
    ensures Span(m, p[..j + 1]) == Span(m, p[..j]) + UnitSpan(m, p[j])
  {
    assert p[..j + 1][..j] == p[..j];
  }

  lemma {:induction false} SpanTail(m: Mode, p: Pattern)
    requires m.Valid() && Encodable(p) && p != []
    ensures Span(m, p) == UnitSpan(m, p[0]) + Span(m, p[1..])
  {
    if |p| > 1 {
      assert p[..|p| - 1][1..] == p[1..][..|p| - 2];
      SpanTail(m, p[..|p| - 1]);
    }
  }

  /** A unit that matches is no wider than the widest spelling of what it matches. */
  lemma {:induction false} UnitWidth(m: Mode, s: Bytes, at: nat, u: CodeUnit)
    requires m.Valid() && at < |s| && (u.Rune? ==> IsScalar(u.rune))
    requires Same(m, UnitAt(m, s, at), u)
    ensures SizeAt(m, s, at) <= UnitSpan(m, u)
  {
    if u.Rune? {
      EncodeDecode(s, at);
      Fold.OrbitSymmetric(m.fold, FormRune(s, at), u.rune);
      Fold.WidestInOrbit(m.fold, u.rune, FormRune(s, at));
    }
  }

  /** Every occurrence of a pattern fits in its span. */
  lemma {:induction false} MatchWithinSpan(m: Mode, s: Bytes, at: nat, p: Pattern)
    requires m.Valid() && at <= |s| && Encodable(p) && MatchEnd(m, s, at, p).Some?
    ensures MatchEnd(m, s, at, p).value <= at + Span(m, p)
    decreases |p|
  {
    if p != [] {
      UnitWidth(m, s, at, p[0]);
      SpanTail(m, p);
      MatchWithinSpan(m, s, at + SizeAt(m, s, at), p[1..]);
    }
  }
}
