/** Searching parts of a haystack. The answer over a range is the least occurrence,
    by start and then by pattern index, among those that lie in the range. */
module Answers {
  import opened Utf8
  import opened Spec

  /** Pattern `i` occurs in `h` at the unit boundary `q`. */
  ghost predicate Occ(m: Mode, h: Bytes, ps: seq<Pattern>, q: nat, i: nat)
    requires m.Valid()
  {
    q <= |h| && Reaches(m, h, 0, q) && MatchesAt(m, h, q, ps, i)
  }

  ghost function End(m: Mode, h: Bytes, ps: seq<Pattern>, q: nat, i: nat): (e: nat)
    requires m.Valid() && Occ(m, h, ps, q, i)
    ensures q <= e <= |h|
  {
    MatchEnd(m, h, q, ps[i]).value
  }

  predicate Before(hit: Hit, q: nat, i: nat) {
    hit.start < q || (hit.start == q && hit.pattern <= i)
  }

  /** `r` is the least occurrence that starts at or after `a` and ends by `c`. */
  ghost predicate Answer(m: Mode, h: Bytes, ps: seq<Pattern>, a: nat, c: nat, r: Option<Hit>)
    requires m.Valid()
  {
    && (r.Some? ==> var hit := r.value;
          Occ(m, h, ps, hit.start, hit.pattern) && a <= hit.start && End(m, h, ps, hit.start, hit.pattern) <= c)
    && forall q: nat, i: nat :: a <= q && Occ(m, h, ps, q, i) && End(m, h, ps, q, i) <= c ==> r.Some? && Before(r.value, q, i)
  }

  lemma {:induction false} AnswerUnique(m: Mode, h: Bytes, ps: seq<Pattern>, a: nat, c: nat, r: Option<Hit>, r': Option<Hit>)
    requires m.Valid() && Answer(m, h, ps, a, c, r) && Answer(m, h, ps, a, c, r')
    ensures r == r'
  {
  }

  lemma {:induction false} ReachesSuffix(m: Mode, h: Bytes, k: nat, a: nat, b: nat)
    requires k <= |h| && b <= |h| - k
    ensures Reaches(m, h[k..], a, b) == Reaches(m, h, k + a, k + b)
    decreases |h| - a
  {
    if a < b {
      UnitSuffix(m, h, k, a);
      var n := SizeAt(m, h, k + a);
      ReachesSuffix(m, h, k, a + n, b);
      assert k + a + n == k + (a + n);
    }
  }

  /** Matching inside a slice is matching in the haystack and ending by the cut. */
  lemma {:induction false} MatchSlice(m: Mode, h: Bytes, ps: seq<Pattern>, a: nat, c: nat, q: nat, i: nat)
    requires m.Valid() && SafeCut(h, c) && a <= c && q <= c - a && Reaches(m, h, 0, a)
    ensures Reaches(m, h[a..c], 0, q) && MatchesAt(m, h[a..c], q, ps, i) <==>
              Occ(m, h, ps, a + q, i) && End(m, h, ps, a + q, i) <= c
  {
    hide MatchEnd, Reaches;
    var t := h[..c];
    assert h[a..c] == t[a..];
    ReachesSuffix(m, t, a, 0, q);
    ReachesCut(m, h, c, a, a + q);
    if Reaches(m, h, a, a + q) { ReachesTransitive(m, h, 0, a, a + q); }
    if Reaches(m, h, 0, a + q) { ReachesThrough(m, h, 0, a, a + q); }
    if i < |ps| {
      MatchSuffix(m, t, a, q, ps[i]);
      MatchCut(m, h, c, a + q, ps[i]);
    }
  }

  /** Searching a slice that starts on a boundary and ends on a safe cut. */
  lemma {:induction false} SliceAnswer(m: Mode, h: Bytes, ps: seq<Pattern>, a: nat, c: nat)
    requires m.Valid() && SafeCut(h, c) && a <= c && Reaches(m, h, 0, a)
    ensures Answer(m, h, ps, a, c, Shift(FindFrom(m, h[a..c], ps), a))
  {
    hide MatchEnd, Reaches, FindFrom, MatchesAt, BestAt;
    var t := h[a..c];
    var r := FindFrom(m, t, ps);
    FindIsLeast(m, t, ps, 0);
    if r.Some? {
      BestMatches(m, t, ps, r.value);
      MatchSlice(m, h, ps, a, c, r.value.start, r.value.pattern);
    }
    forall q: nat, i: nat | a <= q && Occ(m, h, ps, q, i) && End(m, h, ps, q, i) <= c
      ensures r.Some? && Before(Shift(r, a).value, q, i)
    {
      MatchSlice(m, h, ps, a, c, q - a, i);
      LeastBefore(m, t, ps, r, q - a, i);
    }
  }

  lemma {:induction false} BestMatches(m: Mode, t: Bytes, ps: seq<Pattern>, hit: Hit)
    requires m.Valid() && hit.start <= |t| && BestAt(m, t, hit.start, ps) == Some(hit.pattern)
    ensures MatchesAt(m, t, hit.start, ps, hit.pattern)
  {
  }

  lemma {:induction false} LeastBefore(m: Mode, t: Bytes, ps: seq<Pattern>, r: Option<Hit>, q: nat, i: nat)
    requires m.Valid() && IsLeast(m, t, ps, 0, r) && q <= |t| && Reaches(m, t, 0, q) && MatchesAt(m, t, q, ps, i)
    ensures r.Some? && Before(r.value, q, i)
  {
    assert BestAt(m, t, q, ps).Some?;
  }

  lemma {:induction false} WholeAnswer(m: Mode, h: Bytes, ps: seq<Pattern>, c: nat)
    requires m.Valid() && SafeCut(h, c)
    ensures Answer(m, h, ps, 0, c, FindFrom(m, h[..c], ps))
    ensures c == |h| ==> Answer(m, h, ps, 0, c, FindFrom(m, h, ps))
  {
    SliceAnswer(m, h, ps, 0, c);
    assert h[0..c] == h[..c];
    assert Shift(FindFrom(m, h[..c], ps), 0) == FindFrom(m, h[..c], ps);
    assert h[..|h|] == h;
  }

  /** The least occurrence of the whole haystack is what Find reports. */
  lemma {:induction false} WholeIs(m: Mode, h: Bytes, ps: seq<Pattern>, r: Option<Hit>)
    requires m.Valid() && Answer(m, h, ps, 0, |h|, r)
    ensures r == FindFrom(m, h, ps)
  {
    WholeAnswer(m, h, ps, |h|);
    AnswerUnique(m, h, ps, 0, |h|, r, FindFrom(m, h, ps));
  }

  /** No occurrence starts before `x`. */
  ghost predicate NothingBefore(m: Mode, h: Bytes, ps: seq<Pattern>, x: nat)
    requires m.Valid()
  {
    forall q: nat, i: nat :: Occ(m, h, ps, q, i) ==> x <= q
  }

  /** No occurrence is wider than `maxBytes`. */
  ghost predicate Bounded(m: Mode, h: Bytes, ps: seq<Pattern>, maxBytes: nat)
    requires m.Valid()
  {
    forall q: nat, i: nat :: Occ(m, h, ps, q, i) ==> End(m, h, ps, q, i) <= q + maxBytes
  }

  /** Nothing starts before `a`, so the answer from `a` is the answer from the start. */
  lemma {:induction false} AnswerFromStart(m: Mode, h: Bytes, ps: seq<Pattern>, a: nat, c: nat, r: Option<Hit>)
    requires m.Valid() && NothingBefore(m, h, ps, a) && Answer(m, h, ps, a, c, r)
    ensures Answer(m, h, ps, 0, c, r)
  {
  }

  /** A search of the range from `a` to `b` settles every start before `x` when such
      occurrences cannot reach past `b`: either it is the answer for every larger
      range, or nothing starts before `x`. */
  lemma {:induction false} Settles(m: Mode, h: Bytes, ps: seq<Pattern>, maxBytes: nat, a: nat, b: nat, x: nat, r: Option<Hit>)
    requires m.Valid() && Bounded(m, h, ps, maxBytes) && NothingBefore(m, h, ps, a)
    requires Answer(m, h, ps, a, b, r) && (x + maxBytes <= b || x == 0 || b == |h|)
    ensures r.Some? && r.value.start < x ==> forall c :: b <= c ==> Answer(m, h, ps, 0, c, r)
    ensures !(r.Some? && r.value.start < x) ==> NothingBefore(m, h, ps, x)
  {
    forall q: nat, i: nat | Occ(m, h, ps, q, i) && q < x
      ensures End(m, h, ps, q, i) <= b && r.Some? && Before(r.value, q, i)
    {
    }
  }

  // ----- patterns without opaque bytes may be searched in any slice

  /** No pattern is empty and none has an opaque byte. */
  ghost predicate RunesOnly(ps: seq<Pattern>) {
    forall i :: 0 <= i < |ps| ==> ps[i] != [] && forall j :: 0 <= j < |ps[i]| ==> ps[i][j].Rune?
  }

  /** Cutting inside a unit leaves opaque bytes, which match no scalar. */
  lemma {:induction false} UnitCutAnywhere(m: Mode, s: Bytes, n: nat, at: nat)
    requires n <= |s| && at < n
    ensures if at + SizeAt(m, s, at) <= n then UnitAt(m, s[..n], at) == UnitAt(m, s, at) && SizeAt(m, s[..n], at) == SizeAt(m, s, at)
            else UnitAt(m, s[..n], at).Raw?
  {
  }

  lemma {:induction false} MatchCutAnywhere(m: Mode, s: Bytes, n: nat, at: nat, p: Pattern)
    requires m.Valid() && n <= |s| && at <= n && forall j :: 0 <= j < |p| ==> p[j].Rune?
    ensures var short, long := MatchEnd(m, s[..n], at, p), MatchEnd(m, s, at, p);
            if long.Some? && long.value <= n then short == long else short == None
    decreases |p|
  {
    hide FormLen, FormRune, SizeAt, UnitAt;
    if |p| > 0 && at < n {
      UnitCutAnywhere(m, s, n, at);
      if at + SizeAt(m, s, at) <= n {
        MatchCutAnywhere(m, s, n, at + SizeAt(m, s, at), p[1..]);
      }
    }
  }

  /** A position that matches a scalar is a boundary from everywhere. */
  lemma {:induction false} RuneStart(m: Mode, h: Bytes, a: nat, q: nat, p: Pattern)
    requires m.Valid() && a <= q <= |h| && p != [] && p[0].Rune? && MatchEnd(m, h, q, p).Some?
    ensures Reaches(m, h, a, q)
  {
    NonContinuationIsBoundary(m, h, a, q);
  }

  lemma {:induction false} MatchSliceAnywhere(m: Mode, h: Bytes, ps: seq<Pattern>, a: nat, c: nat, q: nat, i: nat)
    requires m.Valid() && RunesOnly(ps) && a <= c <= |h| && q <= c - a
    ensures Reaches(m, h[a..c], 0, q) && MatchesAt(m, h[a..c], q, ps, i) <==>
              Occ(m, h, ps, a + q, i) && End(m, h, ps, a + q, i) <= c
  {
    hide MatchEnd, Reaches;
    var t := h[..c];
    assert h[a..c] == t[a..];
    if i < |ps| {
      MatchSuffix(m, t, a, q, ps[i]);
      MatchCutAnywhere(m, h, c, a + q, ps[i]);
      if MatchesAt(m, h[a..c], q, ps, i) { RuneStart(m, h, 0, a + q, ps[i]); }
      if MatchesAt(m, h, a + q, ps, i) && MatchesAt(m, h[a..c], q, ps, i) { RuneStart(m, h[a..c], 0, q, ps[i]); }
    }
  }

  /** Searching any slice, for patterns without opaque bytes. */
  lemma {:induction false} SliceAnswerAnywhere(m: Mode, h: Bytes, ps: seq<Pattern>, a: nat, c: nat)
    requires m.Valid() && RunesOnly(ps) && a <= c <= |h|
    ensures Answer(m, h, ps, a, c, Shift(FindFrom(m, h[a..c], ps), a))
  {
    hide MatchEnd, Reaches, FindFrom, MatchesAt, BestAt, RunesOnly;
    var t := h[a..c];
    var r := FindFrom(m, t, ps);
    FindIsLeast(m, t, ps, 0);
    if r.Some? {
      BestMatches(m, t, ps, r.value);
      MatchSliceAnywhere(m, h, ps, a, c, r.value.start, r.value.pattern);
    }
    forall q: nat, i: nat | a <= q && Occ(m, h, ps, q, i) && End(m, h, ps, q, i) <= c
      ensures r.Some? && Before(Shift(r, a).value, q, i)
    {
      MatchSliceAnywhere(m, h, ps, a, c, q - a, i);
      LeastBefore(m, t, ps, r, q - a, i);
    }
  }
}
