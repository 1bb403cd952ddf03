/** Enumeration by the tagged multi-anchor filter. Tables nominate positions, exact pair
    checks and a replay of the plan decide, and a result is emitted only once no earlier
    start can still show its anchor. */
module RawEach {
  import opened Utf8
  import opened Spec
  import opened Greedy
  import opened Answers
  import opened Displacements
  import opened MultiAnchors
  import opened Plan
  import opened RootFilters
  import opened RawMap
  import opened RawMatch
  import Fold

  // ----- compiling the filter

  /** The runes of a pattern, unless it is malformed somewhere. */
  method DecodeRunes(p: SearchPlan, id: nat) returns (runes: Option<seq<int>>)
    requires id < |p.patterns| && !p.mode.exact
    ensures runes.Some? ==> RunesOf(p.Ps()[id], runes.value) && Scalars(runes.value)
  {
    var s := p.patterns[id];
    var out: seq<int>, at: nat := [], 0;
    ghost var us := Units(p.mode, s);
    assert us[0..] == us;
    while at < |s|
      invariant at <= |s| && |out| <= |us| && Scalars(out) && us[|out|..] == Units(p.mode, s, at)
      invariant forall j :: 0 <= j < |out| ==> us[j] == Rune(out[j])
      decreases |s| - at
    {
      if FormLen(s, at) == 0 {
        return None;
      }
      assert us[|out|] == us[|out|..][0] && us[|out| + 1..] == us[|out|..][1..];
      out, at := out + [FormRune(s, at)], at + FormLen(s, at);
    }
    return Some(out);
  }

  /** Anchor `i` belongs to pattern `i` and every table knows it. */
  ghost predicate AnchorOf(p: SearchPlan, f: Filter, i: nat)
    reads p
  {
    && p.mode.Valid() && i < |p.Ps()| && Compiled(f, i)
    && exists runes :: RunesOf(p.Ps()[i], runes) && Sound(p.mode.fold, runes, f.anchors[i])
  }

  ghost predicate Armed(p: SearchPlan, f: Filter)
    reads p
  {
    f.Shaped() && |f.anchors| == |p.patterns| && forall i: nat :: i < |p.patterns| ==> AnchorOf(p, f, i)
  }

  predicate TagDiverse(f: Filter) {
    exists i :: 0 < i < |f.anchors| && f.anchors[i] != f.anchors[0]
  }

  lemma {:induction false} SoundPairs(t: Fold.Table, runes: seq<int>, a: Anchor)
    requires Fold.Valid(t) && Sound(t, runes, a)
    ensures (forall p :: p in a.primary ==> |p| == 2) && (forall p :: p in a.confirm ==> |p| == 2)
  {
  }

  lemma {:induction false} ExtendsAnchorOf(p: SearchPlan, f: Filter, f': Filter, i: nat)
    requires AnchorOf(p, f, i) && MultiAnchors.Extends(f, f')
    ensures AnchorOf(p, f', i)
  {
    hide RunesOf, Sound;
    ExtendsCompiled(f, f', i);
    assert f'.anchors[i] == f'.anchors[..|f.anchors|][i];
  }

  /** Choose and enter the anchor of pattern `id`. */
  method CompileAnchor(p: SearchPlan, f0: Filter, id: nat, better: (Anchor, Anchor) -> bool) returns (f: Option<Filter>)
    requires p.Valid() && !p.mode.exact && id < |p.patterns| && f0.Shaped() && |f0.anchors| == id
    ensures f.Some? ==> f.value.Shaped() && |f.value.anchors| == id + 1 && MultiAnchors.Extends(f0, f.value) && AnchorOf(p, f.value, id)
  {
    hide AllRows, Compiled, MultiAnchors.Extends, RunesOf, Sound, Filter.Shaped, UnitSound;
    var runes := DecodeRunes(p, id);
    if runes.None? {
      return None;
    }
    var units := GatherUnits(p.mode.fold, runes.value);
    if units.None? {
      return None;
    }
    RoomFor(f0);
    var best := SelectCandidate(p.mode.fold, runes.value, units.value, f0.confirmOffset, better);
    if best.None? {
      return None;
    }
    SoundPairs(p.mode.fold, runes.value, best.value);
    f := AddAnchor(f0, best.value);
    if f.Some? {
      CompiledShape(f.value, id);
    }
  }

  lemma {:induction false} RoomFor(f: Filter)
    requires f.Shaped()
    ensures |f.confirmOffset| <= CONFIRM_GROUPS
  {
  }

  /** Compile one anchor for every pattern, or give up on the filter. */
  method MakeRawByteMultiAnchorFilter(p: SearchPlan, better: (Anchor, Anchor) -> bool) returns (f: Option<Filter>)
    requires p.Valid() && !p.mode.exact
    ensures f.Some? ==> Armed(p, f.value)
  {
    hide AllRows, MultiAnchors.Extends, AnchorOf;
    if |p.patterns| < 2 || |p.patterns| > MAX_GROUPS {
      return None;
    }
    var cur := Filter(Blank(), Blank(), [], [], [], 0, []);
    for id := 0 to |p.patterns|
      invariant cur.Shaped() && |cur.anchors| == id && forall i: nat :: i < id ==> AnchorOf(p, cur, i)
    {
      var next := CompileAnchor(p, cur, id, better);
      if next.None? {
        return None;
      }
      forall i: nat | i < id ensures AnchorOf(p, next.value, i) {
        ExtendsAnchorOf(p, cur, next.value, i);
      }
      cur := next.value;
    }
    return if TagDiverse(cur) then Some(cur) else None;
  }

  lemma {:induction false} CompiledShape(f: Filter, id: nat)
    requires Compiled(f, id)
    ensures f.Shaped()
  {
  }

  // ----- nomination

  predicate GroupHit(f: Filter, h: Bytes, at: nat, g: nat, id: nat)
    requires f.Shaped()
  {
    && g < |f.confirmOffset|
    && var c := at + f.confirmOffset[g];
       c + 1 < |h| && id in f.confirmFirst[g][Slot(h[c])] && id in f.confirmSecond[g][Slot(h[c + 1])]
  }

  ghost predicate AnyHit(f: Filter, h: Bytes, at: nat, n: nat, id: nat)
    requires f.Shaped()
  {
    exists g: nat :: g < n && GroupHit(f, h, at, g, id)
  }

  lemma {:induction false} AnyHitStep(f: Filter, h: Bytes, at: nat, n: nat, id: nat)
    requires f.Shaped()
    ensures AnyHit(f, h, at, n + 1, id) <==> AnyHit(f, h, at, n, id) || GroupHit(f, h, at, n, id)
  {
    hide GroupHit;
    if GroupHit(f, h, at, n, id) {
      assert n < n + 1;
    }
  }

  /** The tables admit pattern `id` at this position. */
  ghost predicate Nominated(f: Filter, h: Bytes, at: nat, id: nat)
    requires f.Shaped()
  {
    && at + 1 < |h| && id in f.first[Slot(h[at])] && id in f.second[Slot(h[at + 1])]
    && AnyHit(f, h, at, |f.confirmOffset|, id)
  }

  /** What the exact checks accept, the tables admit. */
  lemma {:induction false} ExactIsNominated(f: Filter, h: Bytes, at: nat, id: nat)
    requires Compiled(f, id) && Exact(f.anchors[id], h, at)
    ensures Nominated(f, h, at, id)
  {
    var a := f.anchors[id];
    PairTagged(f.first, f.second, a.primary, h, at, id);
    var c :| c in a.confirmOffset && PairHere(a.confirm, h, at + c);
    var g: nat :| g < |f.confirmOffset| && f.confirmOffset[g] == c && GroupTagged(f, g, a.confirm, id);
    PairTagged(f.confirmFirst[g], f.confirmSecond[g], a.confirm, h, at + c, id);
    assert GroupHit(f, h, at, g, id);
  }

  lemma {:induction false} PairTagged(first: Table, second: Table, pairs: seq<Bytes>, h: Bytes, at: nat, id: nat)
    requires Tagged(first, pairs, 0, id) && Tagged(second, pairs, 1, id) && PairHere(pairs, h, at)
    ensures id in first[Slot(h[at])] && id in second[Slot(h[at + 1])]
  {
    var f := h[at..at + 2];
    assert f[0] == h[at] && f[1] == h[at + 1];
  }

  /** The tags the confirmation groups leave. */
  method Confirmed(f: Filter, h: Bytes, at: nat, tags: set<nat>) returns (candidates: set<nat>)
    requires f.Shaped() && at + 1 < |h|
    ensures forall id :: id in candidates <==> id in tags && AnyHit(f, h, at, |f.confirmOffset|, id)
  {
    hide AnyHit;
    candidates := {};
    forall id: nat ensures !AnyHit(f, h, at, 0, id) {
      NoHit(f, h, at, id);
    }
    for g := 0 to |f.confirmOffset|
      invariant forall id :: id in candidates <==> id in tags && AnyHit(f, h, at, g, id)
    {
      forall id: nat ensures AnyHit(f, h, at, g + 1, id) <==> AnyHit(f, h, at, g, id) || GroupHit(f, h, at, g, id) {
        AnyHitStep(f, h, at, g, id);
      }
      var c := at + f.confirmOffset[g];
      if c + 1 < |h| {
        candidates := candidates + tags * (f.confirmFirst[g][Slot(h[c])] * f.confirmSecond[g][Slot(h[c + 1])]);
      }
    }
  }

  lemma {:induction false} NoHit(f: Filter, h: Bytes, at: nat, id: nat)
    requires f.Shaped()
    ensures !AnyHit(f, h, at, 0, id)
  {
  }

  /** The next position the tables admit, and the patterns they admit there. */
  method RawByteMultiAnchorSkip(h: Bytes, at0: nat, f: Filter) returns (at: nat, candidates: set<nat>)
    requires f.Shaped()
    ensures at0 <= at && forall r: nat, id: nat :: at0 <= r < at ==> !Nominated(f, h, r, id)
    ensures at + 1 < |h| ==> candidates != {} && forall id :: id in candidates <==> Nominated(f, h, at, id)
  {
    at := at0;
    while at + 1 < |h|
      invariant at0 <= at && forall r: nat, id: nat :: at0 <= r < at ==> !Nominated(f, h, r, id)
    {
      var tags := f.first[Slot(h[at])];
      if tags != {} {
        tags := tags * f.second[Slot(h[at + 1])];
        candidates := Confirmed(f, h, at, tags);
        if candidates != {} {
          return;
        }
        assert forall id: nat :: Nominated(f, h, at, id) ==> id in candidates;
      }
      at := at + 1;
    }
    candidates := {};
  }

  /** The candidates whose exact checks hold. */
  method TagsAt(f: Filter, h: Bytes, at: nat, candidates: set<nat>) returns (tags: set<nat>)
    ensures forall id :: id in tags <==> id in candidates && id < |f.anchors| && Exact(f.anchors[id], h, at)
  {
    hide Exact;
    tags := {};
    var rest := candidates;
    while rest != {}
      invariant rest <= candidates
      invariant forall id :: id in tags <==> id in candidates - rest && id < |f.anchors| && Exact(f.anchors[id], h, at)
    {
      var id :| id in rest;
      rest := rest - {id};
      if id < |f.anchors| && Exact(f.anchors[id], h, at) {
        tags := tags + {id};
      }
    }
  }

  // ----- enumeration

  datatype Candidate = Candidate(start: nat, pattern: nat, width: nat)

  ghost predicate Confirms(p: SearchPlan, h: Bytes, from: nat, best: Option<Candidate>)
    reads p
  {
    best.Some? ==> from <= best.value.start && BestHere(p, h, best.value.start, Some((best.value.pattern, best.value.width)))
  }

  /** No start that has shown its anchor before `at` is better than `best`. */
  ghost predicate Swept(p: SearchPlan, f: Filter, h: Bytes, from: nat, at: nat, best: Option<Candidate>)
    reads p
  {
    forall q: nat, i: nat, d: nat :: from <= q && Starts(p, h, q, i) && i < |f.anchors| && d in f.anchors[i].starts && q + d < at && Exact(f.anchors[i], h, q + d) ==>
      best.Some? && best.value.start <= q
  }

  ghost predicate NoLater(best0: Option<Candidate>, best: Option<Candidate>) {
    best0.Some? ==> best.Some? && best.value.start <= best0.value.start
  }

  ghost predicate AtMost(best: Option<Candidate>, q: nat) {
    best.Some? && best.value.start <= q
  }

  lemma {:induction false} StartsBest(p: SearchPlan, h: Bytes, q: nat, i: nat)
    requires Starts(p, h, q, i)
    ensures p.mode.Valid() && q < |h| && BestAt(p.mode, h, q, p.Ps()).Some?
  {
    assert MatchesAt(p.mode, h, q, p.Ps(), i);
  }

  /** Replay the plan at one start, unless it cannot be better. */
  method ConsiderStart(p: SearchPlan, table: seq<nat>, h: Bytes, from: nat, start: nat, best0: Option<Candidate>) returns (best: Option<Candidate>)
    requires p.Valid() && Mapped(p, table) && NoEmptyPattern(p) && from <= start <= |h| && Confirms(p, h, from, best0)
    ensures Confirms(p, h, from, best) && NoLater(best0, best)
    ensures forall i: nat :: Starts(p, h, start, i) ==> AtMost(best, start)
  {
    hide AllRows, Mapped, NoEmptyPattern, Starts, BestAt, MatchEnd;
    best := best0;
    if best.Some? && start > best.value.start {
      return;
    }
    var found := RawByteMatchAt(p, table, h, start);
    if found.Some? && (best.None? || start < best.value.start || (start == best.value.start && found.value.0 < best.value.pattern)) {
      best := Some(Candidate(start, found.value.0, found.value.1));
    }
    forall i: nat | Starts(p, h, start, i) ensures AtMost(best, start) {
      StartsBest(p, h, start, i);
    }
  }

  /** Replay every start from which this anchor position can be reached. */
  method ConsiderStarts(p: SearchPlan, table: seq<nat>, h: Bytes, from: nat, at: nat, starts: seq<nat>, best0: Option<Candidate>) returns (best: Option<Candidate>)
    requires p.Valid() && Mapped(p, table) && NoEmptyPattern(p) && at <= |h| && Confirms(p, h, from, best0)
    ensures Confirms(p, h, from, best) && NoLater(best0, best)
    ensures forall q: nat, i: nat, d: nat :: d in starts && q + d == at && from <= q && Starts(p, h, q, i) ==> AtMost(best, q)
  {
    hide AllRows, Mapped, NoEmptyPattern, Starts, Confirms;
    best := best0;
    for k := 0 to |starts|
      invariant Confirms(p, h, from, best) && NoLater(best0, best)
      invariant forall j: nat, q: nat, i: nat :: j < k && q + starts[j] == at && from <= q && Starts(p, h, q, i) ==> AtMost(best, q)
    {
      ghost var before := best;
      if starts[k] <= at && from <= at - starts[k] {
        best := ConsiderStart(p, table, h, from, at - starts[k], best);
      }
      forall j: nat, q: nat, i: nat | j < k + 1 && q + starts[j] == at && from <= q && Starts(p, h, q, i) ensures AtMost(best, q) {
        if j < k {
          assert AtMost(before, q);
        }
      }
    }
  }

  /** Replay every pattern that survives at this position. */
  method ConsiderTags(p: SearchPlan, table: seq<nat>, f: Filter, h: Bytes, from: nat, at: nat, tags: set<nat>, best0: Option<Candidate>) returns (best: Option<Candidate>)
    requires p.Valid() && Mapped(p, table) && NoEmptyPattern(p) && at <= |h| && Confirms(p, h, from, best0)
    requires forall id :: id in tags ==> id < |f.anchors|
    ensures Confirms(p, h, from, best) && NoLater(best0, best)
    ensures forall id: nat, q: nat, i: nat, d: nat :: id in tags && d in f.anchors[id].starts && q + d == at && from <= q && Starts(p, h, q, i) ==> AtMost(best, q)
  {
    hide AllRows, Mapped, NoEmptyPattern, Starts, Confirms;
    best := best0;
    var rest := tags;
    while rest != {}
      invariant rest <= tags && Confirms(p, h, from, best) && NoLater(best0, best)
      invariant forall id: nat, q: nat, i: nat, d: nat :: id in tags - rest && d in f.anchors[id].starts && q + d == at && from <= q && Starts(p, h, q, i) ==> AtMost(best, q)
    {
      var id :| id in rest;
      ghost var before := best;
      best := ConsiderStarts(p, table, h, from, at, f.anchors[id].starts, best);
      ghost var rest' := rest - {id};
      forall id': nat, q: nat, i: nat, d: nat | id' in tags - rest' && d in f.anchors[id'].starts && q + d == at && from <= q && Starts(p, h, q, i) ensures AtMost(best, q) {
        if id' != id {
          assert AtMost(before, q);
        }
      }
      rest := rest - {id};
    }
  }

  /** Positions the tables skip show no anchor. */
  lemma {:induction false} SkipSwept(p: SearchPlan, f: Filter, h: Bytes, from: nat, at: nat, to: nat, best: Option<Candidate>)
    requires Armed(p, f) && Swept(p, f, h, from, at, best) && at <= to
    requires forall r: nat, id: nat :: at <= r < to ==> !Nominated(f, h, r, id)
    ensures Swept(p, f, h, from, to, best)
  {
    hide Exact, Nominated, Starts;
    forall q: nat, i: nat, d: nat | from <= q && Starts(p, h, q, i) && i < |f.anchors| && d in f.anchors[i].starts && q + d < to && Exact(f.anchors[i], h, q + d)
      ensures best.Some? && best.value.start <= q
    {
      if at <= q + d {
        assert AnchorOf(p, f, i);
        ExactIsNominated(f, h, q + d, i);
      }
    }
  }

  lemma {:induction false} ConsideredSwept(p: SearchPlan, f: Filter, h: Bytes, from: nat, at: nat, tags: set<nat>, candidates: set<nat>, best0: Option<Candidate>, best: Option<Candidate>)
    requires Armed(p, f) && Swept(p, f, h, from, at, best0) && NoLater(best0, best)
    requires forall id :: id in candidates <==> Nominated(f, h, at, id)
    requires forall id :: id in tags <==> id in candidates && id < |f.anchors| && Exact(f.anchors[id], h, at)
    requires forall id: nat, q: nat, i: nat, d: nat :: id in tags && d in f.anchors[id].starts && q + d == at && from <= q && Starts(p, h, q, i) ==> AtMost(best, q)
    ensures Swept(p, f, h, from, at + 1, best)
  {
    hide Exact, Nominated, Starts;
    forall q: nat, i: nat, d: nat | from <= q && Starts(p, h, q, i) && i < |f.anchors| && d in f.anchors[i].starts && q + d < at + 1 && Exact(f.anchors[i], h, q + d)
      ensures best.Some? && best.value.start <= q
    {
      if q + d == at {
        assert AnchorOf(p, f, i);
        ExactIsNominated(f, h, at, i);
        assert i in tags;
        assert AtMost(best, q);
      } else {
        assert best0.Some? && best0.value.start <= q;
      }
    }
  }

  /** Every start shows its anchor, no further on than the largest displacement. */
  lemma {:induction false} StartShows(p: SearchPlan, f: Filter, h: Bytes, q: nat, i: nat) returns (d: nat)
    requires p.Valid() && !p.mode.exact && Armed(p, f) && Starts(p, h, q, i)
    ensures i < |f.anchors| && d in f.anchors[i].starts && d <= f.maxOffset && Exact(f.anchors[i], h, q + d) && q + d + 1 < |h|
  {
    hide AllRows, Exact, Sound, RunesOf, MatchEnd;
    assert AnchorOf(p, f, i);
    var runes :| RunesOf(p.Ps()[i], runes) && Sound(p.mode.fold, runes, f.anchors[i]);
    d := AnchorShows(p.mode, h, q, p.Ps()[i], runes, f.anchors[i]);
    ExactBounds(f.anchors[i], h, q + d);
  }

  lemma {:induction false} ExactBounds(a: Anchor, h: Bytes, at: nat)
    requires Exact(a, h, at)
    ensures at + 1 < |h|
  {
  }

  lemma {:induction false} ArmedRunes(p: SearchPlan, f: Filter)
    requires Armed(p, f)
    ensures RunesOnly(p.Ps()) && NoEmptyPattern(p)
  {
    forall i: nat | i < |p.Ps()| ensures p.Ps()[i] != [] && forall j :: 0 <= j < |p.Ps()[i]| ==> p.Ps()[i][j].Rune? {
      assert AnchorOf(p, f, i);
    }
  }

  /** Once every start before the candidate must have shown its anchor, it is the next
      match; with no candidate at the end there is none. */
  lemma {:induction false} SweptIsFind(p: SearchPlan, f: Filter, h: Bytes, from: nat, at: nat, best: Option<Candidate>)
    requires p.Valid() && !p.mode.exact && Armed(p, f) && from <= |h| && Confirms(p, h, from, best) && Swept(p, f, h, from, at, best)
    requires at + 1 >= |h| || (best.Some? && at > best.value.start + f.maxOffset)
    ensures FindFrom(p.mode, h, p.Ps(), from) == if best.Some? then Some(Hit(best.value.pattern, best.value.start)) else None
  {
    hide AllRows, Armed, Swept, Exact, RunesOnly;
    var m, ps := p.mode, p.Ps();
    ArmedRunes(p, f);
    var last := if best.Some? then best.value.start else |h|;
    forall q | from <= q < last && Reaches(m, h, from, q) ensures BestAt(m, h, q, ps) == None {
      NothingStarts(p, f, h, from, at, best, q);
    }
    if best.Some? {
      FoundReached(p, h, from, best.value);
      FindIs(m, h, ps, from, Hit(best.value.pattern, best.value.start));
    } else {
      NothingStarts(p, f, h, from, at, best, |h|);
      FindIsNone(m, h, ps, from);
    }
  }

  lemma {:induction false} NothingStarts(p: SearchPlan, f: Filter, h: Bytes, from: nat, at: nat, best: Option<Candidate>, q: nat)
    requires p.Valid() && !p.mode.exact && Armed(p, f) && from <= q <= |h| && Swept(p, f, h, from, at, best)
    requires at + 1 >= |h| || (best.Some? && at > best.value.start + f.maxOffset)
    requires best.Some? ==> q < best.value.start
    ensures BestAt(p.mode, h, q, p.Ps()) == None
  {
    hide AllRows, Armed, Exact, MatchEnd;
    ArmedRunes(p, f);
    var b := BestAt(p.mode, h, q, p.Ps());
    if b.Some? {
      MatchStarts(p, h, q, b.value);
      var d := StartShows(p, f, h, q, b.value);
      assert false;
    }
  }

  lemma {:induction false} MatchStarts(p: SearchPlan, h: Bytes, q: nat, i: nat)
    requires p.mode.Valid() && q <= |h| && MatchesAt(p.mode, h, q, p.Ps(), i) && NoEmptyPattern(p)
    ensures Starts(p, h, q, i)
  {
  }

  lemma {:induction false} FoundReached(p: SearchPlan, h: Bytes, from: nat, c: Candidate)
    requires p.mode.Valid() && RunesOnly(p.Ps()) && from <= c.start && BestHere(p, h, c.start, Some((c.pattern, c.width)))
    ensures c.start <= |h| && c.pattern < |p.Ps()| && Reaches(p.mode, h, from, c.start)
    ensures MatchEnd(p.mode, h, c.start, p.Ps()[c.pattern]) == Some(c.start + c.width) && 0 < c.width && BestAt(p.mode, h, c.start, p.Ps()) == Some(c.pattern)
  {
    RuneStart(p.mode, h, from, c.start, p.Ps()[c.pattern]);
  }

  /** The scan from the end of the previous match to the next one. */
  method NextMatch(p: SearchPlan, table: seq<nat>, f: Filter, h: Bytes, from: nat) returns (best: Option<Candidate>)
    requires p.Valid() && Mapped(p, table) && Armed(p, f) && from <= |h|
    ensures Confirms(p, h, from, best)
    ensures FindFrom(p.mode, h, p.Ps(), from) == if best.Some? then Some(Hit(best.value.pattern, best.value.start)) else None
  {
    hide AllRows, Exact, Nominated, Starts, Confirms, Swept, FindFrom, NoEmptyPattern, RunesOnly, NoLater;
    ArmedRunes(p, f);
    MappedFolded(p, table);
    hide Mapped, Armed;
    var at := from;
    best := None;
    NothingSwept(p, f, h, from);
    while at + 1 < |h|
      invariant from <= at && Confirms(p, h, from, best) && Swept(p, f, h, from, at, best)
      decreases |h| - at
    {
      if best.Some? && at > best.value.start + f.maxOffset {
        break;
      }
      var to, candidates := RawByteMultiAnchorSkip(h, at, f);
      SkipSwept(p, f, h, from, at, to, best);
      at := to;
      if at + 1 >= |h| {
        break;
      }
      var tags := TagsAt(f, h, at, candidates);
      var next := ConsiderTags(p, table, f, h, from, at, tags, best);
      ConsideredSwept(p, f, h, from, at, tags, candidates, best, next);
      best, at := next, at + 1;
    }
    SweptIsFind(p, f, h, from, at, best);
  }

  lemma {:induction false} MappedFolded(p: SearchPlan, table: seq<nat>)
    requires Mapped(p, table)
    ensures !p.mode.exact
  {
  }

  lemma {:induction false} NothingSwept(p: SearchPlan, f: Filter, h: Bytes, from: nat)
    ensures Swept(p, f, h, from, from, None) && Confirms(p, h, from, None)
  {
  }

  /** Enumerate with one tagged scan. */
  method EachRawByteFixedAnchored(p: SearchPlan, table: seq<nat>, f: Filter, h: Bytes, goOn: seq<Emit> -> bool) returns (emitted: seq<Emit>, done: bool)
    requires p.Valid() && Mapped(p, table) && Armed(p, f)
    ensures Enumerates(EachFrom(p.mode, h, p.Ps(), 0), goOn, emitted, done)
  {
    hide AllRows, Mapped, Armed, Confirms, FindFrom, EachFrom, RunesOnly, Enumerates, Emitting;
    ghost var all := EachFrom(p.mode, h, p.Ps(), 0);
    ArmedRunes(p, f);
    var from: nat := 0;
    emitted := [];
    EmitNothing(all, goOn);
    while true
      invariant from <= |h| && Emitting(all, goOn, emitted, EachFrom(p.mode, h, p.Ps(), from))
      decreases |h| - from
    {
      var best := NextMatch(p, table, f, h, from);
      EachNext(p, h, from, best);
      if best.None? {
        EmitDone(all, goOn, emitted);
        return emitted, true;
      }
      var e := Emit(best.value.pattern, best.value.start, best.value.width);
      var end := best.value.start + best.value.width;
      EmitMore(all, goOn, emitted, e, EachFrom(p.mode, h, p.Ps(), end));
      emitted := emitted + [e];
      if !goOn(emitted) {
        return emitted, false;
      }
      from := end;
    }
  }

  lemma {:induction false} EachNext(p: SearchPlan, h: Bytes, from: nat, best: Option<Candidate>)
    requires p.mode.Valid() && RunesOnly(p.Ps()) && from <= |h| && Confirms(p, h, from, best)
    requires FindFrom(p.mode, h, p.Ps(), from) == if best.Some? then Some(Hit(best.value.pattern, best.value.start)) else None
    ensures best.None? ==> EachFrom(p.mode, h, p.Ps(), from) == []
    ensures best.Some? ==>
              && from < best.value.start + best.value.width <= |h|
              && EachFrom(p.mode, h, p.Ps(), from) ==
                   [Emit(best.value.pattern, best.value.start, best.value.width)] + EachFrom(p.mode, h, p.Ps(), best.value.start + best.value.width)
  {
    hide FindFrom, EachFrom, RunesOnly, MatchEnd, MatchesAt, BestAt, Reaches;
    if best.Some? {
      FoundReached(p, h, from, best.value);
      EachSome(p.mode, h, p.Ps(), from, Emit(best.value.pattern, best.value.start, best.value.width));
    } else {
      EachNone(p.mode, h, p.Ps(), from);
    }
  }

  /** Find by the same scan: its first emission. */
  method FindRawByteFixedAnchored(p: SearchPlan, table: seq<nat>, f: Filter, h: Bytes) returns (hit: Option<Hit>)
    requires p.Valid() && Mapped(p, table) && Armed(p, f)
    ensures hit == FindFrom(p.mode, h, p.Ps())
  {
    hide AllRows, Mapped, Armed, FindFrom;
    var emitted, done := EachRawByteFixedAnchored(p, table, f, h, _ => false);
    hit := if emitted == [] then None else Some(Hit(emitted[0].pattern, emitted[0].start));
    FirstEmission(p.mode, h, p.Ps(), emitted, done);
  }

  lemma {:induction false} FirstEmission(m: Mode, h: Bytes, ps: seq<Pattern>, emitted: seq<Emit>, done: bool)
    requires m.Valid() && Enumerates(EachFrom(m, h, ps, 0), _ => false, emitted, done)
    ensures FindFrom(m, h, ps) == if emitted == [] then None else Some(Hit(emitted[0].pattern, emitted[0].start))
  {
    hide FindFrom;
    var all := EachFrom(m, h, ps, 0);
    if emitted != [] {
      assert emitted[0] == all[..|emitted|][0];
    }
  }
}
