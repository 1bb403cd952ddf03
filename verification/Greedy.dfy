/** What enumeration means: the greedy sequence of non-overlapping matches, each with
    the exact source width it consumes. After an empty match enumeration moves on by
    one unit, until the end of the haystack. */
module Greedy {
  import opened Utf8
  import opened Spec

  datatype Emit = Emit(pattern: nat, start: nat, width: nat)

  ghost predicate Occurs(m: Mode, h: Bytes, ps: seq<Pattern>, e: Emit)
    requires m.Valid()
  {
    e.start <= |h| && MatchesAt(m, h, e.start, ps, e.pattern) && MatchEnd(m, h, e.start, ps[e.pattern]) == Some(e.start + e.width)
  }

  /** Where enumeration goes on after `e`; beyond the end once it is over. */
  function Resume(m: Mode, h: Bytes, e: Emit): (at: nat)
    requires e.start + e.width <= |h|
    ensures at > e.start
  {
    if e.width > 0 then e.start + e.width
    else if e.start == |h| then |h| + 1
    else e.start + SizeAt(m, h, e.start)
  }

  ghost function EmitOf(m: Mode, h: Bytes, ps: seq<Pattern>, hit: Hit): (e: Emit)
    requires m.Valid() && hit.start <= |h| && MatchesAt(m, h, hit.start, ps, hit.pattern)
    ensures Occurs(m, h, ps, e) && e.pattern == hit.pattern && e.start == hit.start
  {
    Emit(hit.pattern, hit.start, MatchEnd(m, h, hit.start, ps[hit.pattern]).value - hit.start)
  }

  lemma {:induction false} FindMatches(m: Mode, h: Bytes, ps: seq<Pattern>, at: nat)
    requires m.Valid() && at <= |h|
    ensures var hit := FindFrom(m, h, ps, at); hit.Some? ==> MatchesAt(m, h, hit.value.start, ps, hit.value.pattern)
  {
    FindIsLeast(m, h, ps, at);
  }

  ghost function EachFrom(m: Mode, h: Bytes, ps: seq<Pattern>, at: nat): (es: seq<Emit>)
    requires m.Valid()
    decreases |h| + 1 - at
  {
    if at > |h| then []
    else
      FindMatches(m, h, ps, at);
      match FindFrom(m, h, ps, at)
      case None => []
      case Some(hit) =>
        var e := EmitOf(m, h, ps, hit);
        [e] + EachFrom(m, h, ps, Resume(m, h, e))
  }

  // ----- the greedy sequence, described by its members

  /** Every emission occurs, with its exact width, at a place decoding reaches; each starts
      behind the start of those before it, and not before their ends. */
  ghost predicate InSequence(m: Mode, h: Bytes, ps: seq<Pattern>, at: nat, es: seq<Emit>)
    requires m.Valid()
  {
    && (forall k :: 0 <= k < |es| ==> Occurs(m, h, ps, es[k]) && at <= es[k].start && Reaches(m, h, at, es[k].start))
    && forall j, k :: 0 <= j < k < |es| ==> es[j].start < es[k].start && es[j].start + es[j].width <= es[k].start
  }

  /** A match of pattern `i` at `q` starts inside the bytes that `e` takes, or where `e`
      starts and is no better. */
  predicate AccountsFor(e: Emit, q: nat, i: nat) {
    e.start < q < e.start + e.width || (q == e.start && e.pattern <= i)
  }

  /** Every match at a reached place is accounted for by some emission. */
  ghost predicate NothingMissed(m: Mode, h: Bytes, ps: seq<Pattern>, at: nat, es: seq<Emit>)
    requires m.Valid()
  {
    forall q: nat, i: nat :: at <= q <= |h| && Reaches(m, h, at, q) && MatchesAt(m, h, q, ps, i) ==>
      exists k :: 0 <= k < |es| && AccountsFor(es[k], q, i)
  }

  /** An emission leads to a place decoding reaches. */
  lemma {:induction false} ResumeReached(m: Mode, h: Bytes, ps: seq<Pattern>, e: Emit)
    requires m.Valid() && Occurs(m, h, ps, e)
    ensures Resume(m, h, e) <= |h| ==> Reaches(m, h, e.start, Resume(m, h, e))
  {
    MatchReaches(m, h, e.start, ps[e.pattern]);
  }

  lemma {:induction false} MatchReaches(m: Mode, h: Bytes, at: nat, p: Pattern)
    requires m.Valid() && at <= |h| && MatchEnd(m, h, at, p).Some?
    ensures Reaches(m, h, at, MatchEnd(m, h, at, p).value)
    decreases |p|
  {
    if p != [] {
      MatchReaches(m, h, at + SizeAt(m, h, at), p[1..]);
    }
  }

  /** What starts behind an emission is reached from where enumeration goes on. */
  lemma {:induction false} BehindReached(m: Mode, h: Bytes, ps: seq<Pattern>, at: nat, e: Emit, q: nat)
    requires m.Valid() && Occurs(m, h, ps, e) && at <= e.start && Reaches(m, h, at, e.start)
    requires e.start < q <= |h| && e.start + e.width <= q && Reaches(m, h, at, q)
    ensures Resume(m, h, e) <= q && Reaches(m, h, Resume(m, h, e), q)
  {
    hide MatchEnd;
    ReachesThrough(m, h, at, e.start, q);
    if e.width > 0 {
      ResumeReached(m, h, ps, e);
      ReachesThrough(m, h, e.start, Resume(m, h, e), q);
    }
  }

  /** The emissions behind the first one, from where enumeration goes on. */
  lemma {:induction false} RestInSequence(m: Mode, h: Bytes, ps: seq<Pattern>, at: nat, es: seq<Emit>)
    requires m.Valid() && es != [] && InSequence(m, h, ps, at, es)
    ensures InSequence(m, h, ps, Resume(m, h, es[0]), es[1..])
  {
    hide MatchEnd, SizeAt;
    forall k | 0 <= k < |es[1..]|
      ensures Resume(m, h, es[0]) <= es[1..][k].start && Reaches(m, h, Resume(m, h, es[0]), es[1..][k].start)
    {
      BehindReached(m, h, ps, at, es[0], es[k + 1].start);
    }
  }

  lemma {:induction false} MoreInSequence(m: Mode, h: Bytes, ps: seq<Pattern>, at: nat, e: Emit, rest: seq<Emit>)
    requires m.Valid() && at <= e.start && Occurs(m, h, ps, e) && Reaches(m, h, at, e.start)
    requires InSequence(m, h, ps, Resume(m, h, e), rest)
    ensures InSequence(m, h, ps, at, [e] + rest)
  {
    hide MatchEnd, SizeAt;
    ResumeReached(m, h, ps, e);
    forall k | 0 <= k < |rest| ensures at <= rest[k].start && Reaches(m, h, at, rest[k].start) {
      assert Occurs(m, h, ps, rest[k]);
      assert Resume(m, h, e) <= rest[k].start <= |h|;
      ReachesTransitive(m, h, at, e.start, Resume(m, h, e));
      ReachesTransitive(m, h, at, Resume(m, h, e), rest[k].start);
    }
  }

  lemma {:induction false} EachInSequence(m: Mode, h: Bytes, ps: seq<Pattern>, at: nat)
    requires m.Valid()
    ensures InSequence(m, h, ps, at, EachFrom(m, h, ps, at))
    decreases |h| + 1 - at
  {
    hide MatchEnd, SizeAt, Resume;
    var es := EachFrom(m, h, ps, at);
    if es != [] {
      FindIsLeast(m, h, ps, at);
      EachInSequence(m, h, ps, Resume(m, h, es[0]));
      MoreInSequence(m, h, ps, at, es[0], EachFrom(m, h, ps, Resume(m, h, es[0])));
    }
  }

  /** The greedy sequence misses no match: one that it does not report starts inside a
      reported one, or loses to one where it starts. */
  lemma {:induction false} EachMissesNothing(m: Mode, h: Bytes, ps: seq<Pattern>, at: nat)
    requires m.Valid()
    ensures NothingMissed(m, h, ps, at, EachFrom(m, h, ps, at))
    decreases |h| + 1 - at
  {
    hide MatchEnd, SizeAt, Resume;
    var es := EachFrom(m, h, ps, at);
    if at <= |h| {
      FindIsLeast(m, h, ps, at);
    }
    forall q: nat, i: nat | at <= q <= |h| && Reaches(m, h, at, q) && MatchesAt(m, h, q, ps, i)
      ensures exists k :: 0 <= k < |es| && AccountsFor(es[k], q, i)
    {
      assert BestAt(m, h, q, ps).Some?;
      assert es != [];
      var e := es[0];
      if q == e.start || q < e.start + e.width {
        assert AccountsFor(e, q, i);
      } else {
        BehindReached(m, h, ps, at, e, q);
        EachMissesNothing(m, h, ps, Resume(m, h, e));
        var rest := EachFrom(m, h, ps, Resume(m, h, e));
        var k :| 0 <= k < |rest| && AccountsFor(rest[k], q, i);
        assert es[k + 1] == rest[k];
      }
    }
  }

  /** The greedy sequence is the only one in which every emission occurs, none overlap, and
      no match is missed. */
  lemma {:induction false} EachOnly(m: Mode, h: Bytes, ps: seq<Pattern>, at: nat, es: seq<Emit>)
    requires m.Valid()
    ensures es == EachFrom(m, h, ps, at) <==> InSequence(m, h, ps, at, es) && NothingMissed(m, h, ps, at, es)
  {
    hide InSequence, NothingMissed, EachFrom;
    EachInSequence(m, h, ps, at);
    EachMissesNothing(m, h, ps, at);
    if InSequence(m, h, ps, at, es) && NothingMissed(m, h, ps, at, es) {
      OnlySequence(m, h, ps, at, es);
    }
  }

  lemma {:induction false} OnlySequence(m: Mode, h: Bytes, ps: seq<Pattern>, at: nat, es: seq<Emit>)
    requires m.Valid() && InSequence(m, h, ps, at, es) && NothingMissed(m, h, ps, at, es)
    ensures es == EachFrom(m, h, ps, at)
    decreases |es|
  {
    hide MatchEnd, SizeAt, Resume, InSequence, NothingMissed, FindFrom;
    StartsInside(m, h, ps, at, es);
    if es == [] {
      NothingThere(m, h, ps, at);
    } else {
      FirstIsFound(m, h, ps, at, es);
      RestInSequence(m, h, ps, at, es);
      RestMissesNothing(m, h, ps, at, es);
      OnlySequence(m, h, ps, Resume(m, h, es[0]), es[1..]);
    }
  }

  lemma {:induction false} StartsInside(m: Mode, h: Bytes, ps: seq<Pattern>, at: nat, es: seq<Emit>)
    requires m.Valid() && InSequence(m, h, ps, at, es)
    ensures es != [] ==> at <= |h| && es[0].start + es[0].width <= |h|
  {
    hide MatchEnd;
    if es != [] {
      assert Occurs(m, h, ps, es[0]);
      assert es[0].start + es[0].width <= |h|;
    }
  }

  lemma {:induction false} NothingThere(m: Mode, h: Bytes, ps: seq<Pattern>, at: nat)
    requires m.Valid() && NothingMissed(m, h, ps, at, [])
    ensures EachFrom(m, h, ps, at) == []
  {
    hide MatchEnd, SizeAt, Resume;
    if at <= |h| {
      FindMatches(m, h, ps, at);
      FindIsLeast(m, h, ps, at);
      assert FindFrom(m, h, ps, at) == None;
    }
  }

  lemma {:induction false} RestMissesNothing(m: Mode, h: Bytes, ps: seq<Pattern>, at: nat, es: seq<Emit>)
    requires m.Valid() && es != [] && InSequence(m, h, ps, at, es) && NothingMissed(m, h, ps, at, es)
    ensures NothingMissed(m, h, ps, Resume(m, h, es[0]), es[1..])
  {
    hide MatchEnd, SizeAt;
    var e := es[0];
    var next := Resume(m, h, e);
    forall q: nat, i: nat | next <= q <= |h| && Reaches(m, h, next, q) && MatchesAt(m, h, q, ps, i)
      ensures exists k :: 0 <= k < |es[1..]| && AccountsFor(es[1..][k], q, i)
    {
      ResumeReached(m, h, ps, e);
      ReachesTransitive(m, h, at, e.start, next);
      ReachesTransitive(m, h, at, next, q);
      var k :| 0 <= k < |es| && AccountsFor(es[k], q, i);
      assert es[1..][k - 1] == es[k];
    }
  }

  lemma {:induction false} FirstIsFound(m: Mode, h: Bytes, ps: seq<Pattern>, at: nat, es: seq<Emit>)
    requires m.Valid() && InSequence(m, h, ps, at, es) && NothingMissed(m, h, ps, at, es) && es != [] && at <= |h|
    ensures FindFrom(m, h, ps, at) == Some(Hit(es[0].pattern, es[0].start))
    ensures EmitOf(m, h, ps, Hit(es[0].pattern, es[0].start)) == es[0]
  {
    hide MatchEnd, SizeAt, Resume;
    FindIsLeast(m, h, ps, at);
    FindMatches(m, h, ps, at);
    var e := es[0];
    var hit := FindFrom(m, h, ps, at);
    assert BestAt(m, h, e.start, ps).Some?;
    var k :| 0 <= k < |es| && AccountsFor(es[k], hit.value.start, hit.value.pattern);
    assert es[k].start <= hit.value.start <= e.start;
  }

  // ----- what a caller sees

  /** `emitted` is what a caller sees when `goOn` says after each emission whether to go
      on; `done` is what the enumeration returns. */
  ghost predicate Enumerates(all: seq<Emit>, goOn: seq<Emit> -> bool, emitted: seq<Emit>, done: bool) {
    && |emitted| <= |all| && emitted == all[..|emitted|]
    && (forall k :: 0 < k < |emitted| ==> goOn(emitted[..k]))
    && (done ==> emitted == all && (emitted != [] ==> goOn(emitted)))
    && (!done ==> emitted != [] && !goOn(emitted))
  }

  /** That determines what is seen. */
  lemma {:induction false} EnumeratesUnique(all: seq<Emit>, goOn: seq<Emit> -> bool, a: seq<Emit>, da: bool, b: seq<Emit>, db: bool)
    requires Enumerates(all, goOn, a, da) && Enumerates(all, goOn, b, db)
    ensures a == b && da == db
  {
    var n := if |a| < |b| then |a| else |b|;
    assert a[..n] == all[..n] && b[..n] == all[..n];
  }

  /** An enumeration under way: `emitted` has been seen, `rest` is still to come. */
  ghost predicate Emitting(all: seq<Emit>, goOn: seq<Emit> -> bool, emitted: seq<Emit>, rest: seq<Emit>) {
    all == emitted + rest && forall k :: 0 < k <= |emitted| ==> goOn(emitted[..k])
  }

  lemma {:induction false} EmitNothing(all: seq<Emit>, goOn: seq<Emit> -> bool)
    ensures Emitting(all, goOn, [], all)
  {
  }

  /** One more emission: enumeration goes on, or ends there. */
  lemma {:induction false} EmitMore(all: seq<Emit>, goOn: seq<Emit> -> bool, emitted: seq<Emit>, e: Emit, rest: seq<Emit>)
    requires Emitting(all, goOn, emitted, [e] + rest)
    ensures goOn(emitted + [e]) ==> Emitting(all, goOn, emitted + [e], rest)
    ensures !goOn(emitted + [e]) ==> Enumerates(all, goOn, emitted + [e], false)
  {
    var more := emitted + [e];
    assert all == more + rest;
    assert forall k :: 0 <= k <= |emitted| ==> more[..k] == emitted[..k];
    assert more[..|more|] == more;
  }

  lemma {:induction false} EmitDone(all: seq<Emit>, goOn: seq<Emit> -> bool, emitted: seq<Emit>)
    requires Emitting(all, goOn, emitted, [])
    ensures Enumerates(all, goOn, emitted, true)
  {
    assert emitted[..|emitted|] == emitted;
  }

  lemma {:induction false} EachNone(m: Mode, h: Bytes, ps: seq<Pattern>, from: nat)
    requires m.Valid() && from <= |h| && FindFrom(m, h, ps, from) == None
    ensures EachFrom(m, h, ps, from) == []
  {
  }

  /** A match that consumes something is emitted, and enumeration goes on behind it. */
  lemma {:induction false} EachSome(m: Mode, h: Bytes, ps: seq<Pattern>, from: nat, e: Emit)
    requires m.Valid() && from <= |h| && FindFrom(m, h, ps, from) == Some(Hit(e.pattern, e.start))
    requires e.start <= |h| && e.pattern < |ps| && 0 < e.width && MatchEnd(m, h, e.start, ps[e.pattern]) == Some(e.start + e.width)
    ensures from < e.start + e.width <= |h|
    ensures EachFrom(m, h, ps, from) == [e] + EachFrom(m, h, ps, e.start + e.width)
  {
    hide FindFrom, BestAt, Reaches;
    FindMatches(m, h, ps, from);
  }

  // ----- widths

  /** Where `n` units from `at` end, at most at the end of the haystack. */
  function Walk(m: Mode, h: Bytes, at: nat, n: nat): (end: nat)
    requires at <= |h|
    ensures at <= end <= |h|
    decreases n
  {
    if n == 0 || at == |h| then at else Walk(m, h, at + SizeAt(m, h, at), n - 1)
  }

  /** A match ends where as many units as the pattern has end. */
  lemma {:induction false} MatchIsWalk(m: Mode, h: Bytes, at: nat, p: Pattern)
    requires m.Valid() && at <= |h| && MatchEnd(m, h, at, p).Some?
    ensures MatchEnd(m, h, at, p).value == Walk(m, h, at, |p|)
    ensures m.exact ==> MatchEnd(m, h, at, p).value == at + |p|
    decreases |p|
  {
    if p != [] {
      MatchIsWalk(m, h, at + SizeAt(m, h, at), p[1..]);
    }
  }

  /** A match is as many units as the pattern has, each folding with its own. */
  lemma {:induction false} MatchIsUnits(m: Mode, h: Bytes, at: nat, p: Pattern)
    requires m.Valid() && at <= |h|
    ensures MatchEnd(m, h, at, p).Some? <==> |p| <= |Units(m, h, at)| && forall j :: 0 <= j < |p| ==> Same(m, Units(m, h, at)[j], p[j])
    decreases |p|
  {
    hide Same, UnitAt, SizeAt;
    if p != [] && at < |h| {
      var us, next := Units(m, h, at), at + SizeAt(m, h, at);
      MatchIsUnits(m, h, next, p[1..]);
      assert us[0] == UnitAt(m, h, at) && us[1..] == Units(m, h, next);
      if |p| <= |us| && forall j :: 0 <= j < |p| ==> Same(m, us[j], p[j]) {
        forall j | 0 <= j < |p[1..]| ensures Same(m, us[1..][j], p[1..][j]) {
          assert Same(m, us[j + 1], p[j + 1]);
        }
      }
      if MatchEnd(m, h, at, p).Some? {
        forall j | 0 <= j < |p| ensures Same(m, us[j], p[j]) {
          if j > 0 {
            assert Same(m, us[1..][j - 1], p[1..][j - 1]);
          }
        }
      }
    }
  }

  method MatcherMatchEnd(m: Mode, h: Bytes, start: nat, units: nat) returns (at: nat)
    requires start <= |h| && !m.exact
    ensures at == Walk(m, h, start, units)
  {
    at := start;
    var left := units;
    while left > 0
      invariant start <= at <= |h| && Walk(m, h, at, left) == Walk(m, h, start, units)
    {
      if at < |h| {
        at := at + SizeAt(m, h, at);
      }
      left := left - 1;
    }
  }
}
