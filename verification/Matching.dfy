/** The matcher: one compiled plan, the filters compiled from it, the dispatch that picks a
    route for each haystack, and enumeration over repeated searches. Every gate that
    weighs size, density or processor is an arbitrary choice here. Each choice answers
    alike, but for the partition of several patterns, which is followed as it is. */
module Matching {
  import opened Utf8
  import opened Spec
  import opened Greedy
  import opened Answers
  import opened Cuts
  import opened Plan
  import opened Search
  import opened Decoded
  import opened RootFilters
  import opened TripleFilters
  import opened Filtered
  import opened Partition
  import opened AsciiOnly
  import opened PartitionOne
  import opened RawMap
  import opened RawMatch
  import opened RawEach
  import opened Displacements
  import opened Lexer
  import opened OriginGate
  import opened PairAnchored
  import opened Truncation
  import opened Routes
  import FixedAnchor
  import UnicodePairs
  import UnicodeTriples
  import MultiAnchors
  import AsciiSkip
  import Fold

  /** The routes that a gate may admit. */
  datatype Route = ByProbe | ByPartition | ByLonePartition | ByLoneProbe | ByOrigin | ByUnicodePair | ByVector | ByPairs | ByAsciiTriples | ByBuckets

  /** Which routes a haystack may take, which runs a partition accepts, which blocks the
      bucket kernel takes, how a probe picks candidates, and how wide a run mask is. */
  datatype Policy = Policy(admits: (Bytes, Route) -> bool, admitRun: Bytes -> nat -> bool, blocks: nat -> bool, way: Bytes -> Way, mask: nat -> nat)

  /** How candidates are ranked while compiling. */
  datatype Ranking = Ranking(anchors: (MultiAnchors.Anchor, MultiAnchors.Anchor) -> bool, pairs: (byte, byte) -> nat, bytes: byte -> nat, rarer: (byte, byte) -> bool)

  /** The raw-byte routes: the tagged filter and the origin gate. */
  datatype RawRoutes = RawRoutes(filter: MultiAnchors.Filter, gate: Option<(byte, nat)>)

  /** The pair-anchored route. */
  datatype PairRoute = PairRoute(anchors: seq<PairAnchor>, maxAt: nat, tables: PairTables)

  // ----- widths

  method RuneCount(m: Mode, s: Bytes) returns (n: nat)
    requires !m.exact
    ensures n == |Units(m, s)|
  {
    var at: nat := 0;
    n := 0;
    while at < |s|
      invariant at <= |s| && n + |Units(m, s, at)| == |Units(m, s)|
      decreases |s| - at
    {
      at, n := at + SizeAt(m, s, at), n + 1;
    }
  }

  lemma {:induction false} ExactUnits(m: Mode, s: Bytes, at: nat)
    requires m.exact && at <= |s|
    ensures |Units(m, s, at)| == |s| - at
    decreases |s| - at
  {
    if at < |s| {
      ExactUnits(m, s, at + 1);
    }
  }

  class Matcher {
    const plan: SearchPlan
    const generic: bool
    const needle: Option<Bytes>
    const filters: Filters
    const asciiTriples: Option<seq<Triple>>
    const pairs: Option<PairRoute>
    const table: Option<seq<nat>>
    const raw: Option<RawRoutes>
    const probe: Option<ProbeRoute>
    const unicode: Option<UnicodeRoute>
    const window: Option<TripleRoute>
    const buckets: Option<BucketRoute>

    ghost predicate RawValid()
      reads plan
    {
      MapOf(plan, table) &&
      (raw.Some? ==>
        && table.Some? && Armed(plan, raw.value.filter)
        && (raw.value.gate.Some? ==> Gate(plan, |plan.patterns|, raw.value.gate.value.0, raw.value.gate.value.1)))
    }

    /** What compiling kept: tokens and words of the patterns only, tight bounds, and the
        filters that fit. */
    ghost predicate Compiled()
      reads plan
    {
      && plan.NoSpareToken() && plan.NoSpareWord([]) && plan.Attained(|plan.patterns|)
      && AsciiKept(plan, asciiTriples)
      && Held(plan.tokens, filters.root) && (filters.triples != [] ==> AllRootsFit(plan, filters.triples))
      && (RootsFit(plan, {}) && !UnsafeRoots(plan) ==> Conservative(plan, filters))
      && (Conservative(plan, filters) || UnsafeRoots(plan) || GaveUp(plan, {}))
    }

    ghost predicate FoldValid()
      reads plan
    {
      && Compiled() && Fold.FoldsAscii(plan.mode.fold) && (generic <==> !SpecialRoot(plan))
      && (needle.Some? ==> PartitionOne.Single(plan, needle.value))
      && (filters.Usable() ==> Conservative(plan, filters))
      && (asciiTriples.Some? ==> ScreensAscii(plan, asciiTriples.value))
      && (pairs.Some? ==>
            Anchored(plan, pairs.value.anchors, |plan.patterns|) &&
            forall k :: 0 <= k < |pairs.value.anchors| ==>
              pairs.value.anchors[k].at <= pairs.value.maxAt && Knows(pairs.value.tables, pairs.value.anchors[k], k))
      && RawValid()
      && (probe.Some? ==> |plan.patterns| == 1 && ProbeReady(plan, plan.patterns[0], probe.value))
      && (unicode.Some? ==> UnicodeReady(plan, unicode.value))
      && (window.Some? ==> TripleReady(plan, window.value))
      && (buckets.Some? ==> BucketReady(plan, buckets.value))
    }

    ghost predicate Valid()
      reads plan
    {
      plan.Valid() && (!plan.mode.exact ==> FoldValid())
    }

    /** The sets whose texts may be partitioned: several patterns, none empty, nothing
        opaque, a generic root, and four to eight triples for all roots of ASCII text. */
    predicate PartitionUsable()
      reads plan
    {
      && plan.empty.None? && !OpaqueContinuation(plan) && generic && |plan.patterns| > 1
      && asciiTriples.Some? && 4 <= |asciiTriples.value| <= 8
    }

    /** The byte filters that may screen any text. */
    predicate FiltersUsable()
      reads plan
    {
      (filters.triples != [] && (|plan.patterns| == 1 || generic)) || (filters.root.Usable() && generic)
    }

    /** The sets for which no route comes before the partition of a text that is not all
        ASCII. */
    predicate PartitionReached()
      reads plan
    {
      !plan.mode.exact && plan.maxUnits != 0 && PartitionUsable() && raw.None? && !FiltersUsable()
    }

    /** The searches that end in the partition of several patterns. */
    predicate Partitions(policy: Policy, h: Bytes)
      reads plan
    {
      PartitionReached() && policy.admits(h, ByPartition) && NextExceptional(h, 0) < |h|
    }

    /** What the matcher answers, for every set, text and policy. */
    ghost function Answered(policy: Policy, h: Bytes): Option<Hit>
      requires plan.mode.Valid()
      reads plan
    {
      if Partitions(policy, h) then Partitioned(plan.mode, h, plan.Ps(), plan.maxBytes, policy.admitRun(h), NextExceptional(h, 0))
      else FindFrom(plan.mode, h, plan.Ps())
    }

    /** The search does not end in the partition, or no occurrence that runs past the first
        window with a hit beats that hit. */
    ghost predicate Accepts(policy: Policy, h: Bytes)
      reads plan
    {
      plan.mode.Valid() &&
      (Partitions(policy, h) ==>
         FirstUncut(plan.mode, h, plan.Ps(), Ends(h, plan.maxBytes, policy.admitRun(h), NextExceptional(h, 0))))
    }

    /** The answer is that of Find exactly where the policy is accepted. */
    lemma {:induction false} AnsweredExactly(policy: Policy, h: Bytes)
      requires plan.mode.Valid()
      ensures Answered(policy, h) == FindFrom(plan.mode, h, plan.Ps()) <==> Accepts(policy, h)
    {
      hide Compiled, FindFrom, Partitioned, FirstUncut, Ends, PartitionReached;
      if Partitions(policy, h) {
        RightExactly(plan.mode, h, plan.Ps(), plan.maxBytes, policy.admitRun(h), NextExceptional(h, 0));
      }
    }

    /** A safe set is answered right under every policy. */
    lemma {:induction false} SafeAccepts(policy: Policy, h: Bytes)
      requires plan.Valid() && plan.mode.Valid() && TruncationSafe(plan.mode, plan.Ps())
      ensures Accepts(policy, h)
    {
      hide Compiled, FindFrom, Partitioned, FirstUncut, Ends, PartitionUsable, FiltersUsable, SearchPlan.Valid, TruncationSafe, Bounded;
      AnsweredExactly(policy, h);
      if Partitions(policy, h) {
        PlanBounded(plan, h);
        SafeIsExact(plan.mode, h, plan.Ps(), plan.maxBytes, policy.admitRun(h), NextExceptional(h, 0));
      }
    }

    /** A policy that admits the partition, and no other route that a gate could refuse. */
    static function Partitioning(admit: nat -> bool): Policy {
      Policy((b: Bytes, r: Route) => r == ByPartition, (b: Bytes) => admit, (n: nat) => true, (b: Bytes) => ThreeBytes, (n: nat) => n)
    }

    // ----- sets that are answered right on every text

    /** Filters for all texts, behind a generic root or for one pattern, answer all texts. */
    lemma {:induction false} FilteredIsRight(policy: Policy, h: Bytes)
      requires Valid() && !plan.mode.exact && plan.mode.Valid()
      requires || (!SpecialRoot(plan) && (filters.root.ones != [] || filters.root.pairs != []))
               || (filters.triples != [] && (|plan.patterns| == 1 || !SpecialRoot(plan)))
      ensures Answered(policy, h) == FindFrom(plan.mode, h, plan.Ps())
    {
      hide Compiled, FindFrom, Partitioned, PartitionUsable, RawValid, SearchPlan.Valid, SpecialRoot, NextExceptional;
    }

    /** So a set whose roots have room for their entries is answered right: all of them in
        sixteen places of either kind, or each of them beside entries of the others. */
    lemma {:induction false} RoomyIsRight(policy: Policy, h: Bytes)
      requires Valid() && !plan.mode.exact && plan.mode.Valid() && !SpecialRoot(plan) && (RootsFit(plan, {}) || !GaveUp(plan, {}))
      ensures Answered(policy, h) == FindFrom(plan.mode, h, plan.Ps())
    {
      hide FindFrom, Partitioned, RawValid, SearchPlan.Valid, SpecialRoot, RootsFit, GaveUp, Conservative, NextExceptional, Held, AsciiKept;
      OpaqueRoots();
      if Partitions(policy, h) {
        SomePattern();
        ConservativeIsUsable(plan, filters, 0);
        FilteredIsRight(policy, h);
      }
    }

    lemma {:induction false} OpaqueRoots()
      requires plan.Valid()
      ensures UnsafeRoots(plan) ==> OpaqueContinuation(plan)
    {
      hide SearchPlan.Valid;
      if b: byte :| IsContinuation(b) && |plan.nodes| > 0 && plan.tokens.Of(Raw(b)) in plan.nodes[0].edges {
        RootEdge(plan, plan.tokens.Of(Raw(b)));
      }
    }

    lemma {:induction false} SomePattern()
      requires plan.Valid() && plan.empty.None? && |plan.patterns| > 0
      ensures |plan.Ps()| == |plan.patterns| && forall i :: 0 <= i < |plan.Ps()| ==> plan.Ps()[i] != []
    {
    }

    /** A set outside the partition's gates is answered right. */
    lemma {:induction false} OthersAreRight(policy: Policy, h: Bytes)
      requires Valid() && plan.mode.Valid()
      requires || plan.mode.exact || |plan.patterns| <= 1 || SpecialRoot(plan) || raw.Some?
               || (exists i :: 0 <= i < |plan.Ps()| && plan.Ps()[i] == []) || OpaqueContinuation(plan)
               || asciiTriples.None? || |asciiTriples.value| < 4 || |asciiTriples.value| > 8
               || (forall q :: 0 <= q < |h| ==> 0 < h[q] < 0x80)
      ensures Answered(policy, h) == FindFrom(plan.mode, h, plan.Ps())
    {
      hide Compiled, FindFrom, Partitioned, RawValid, SearchPlan.Valid, SpecialRoot, OpaqueContinuation;
      if Partitions(policy, h) {
        SomePattern();
      }
    }

    /** What is left to the partition: several patterns, none empty, none with an opaque
        continuation byte, roots of different kinds, no filters, and four to eight triples
        for ASCII text. */
    ghost predicate LeftToPartition()
      reads plan
    {
      && !plan.mode.exact && |plan.patterns| > 1 && !SpecialRoot(plan)
      && (forall i :: 0 <= i < |plan.Ps()| ==> plan.Ps()[i] != [])
      && (forall i, j :: 0 <= i < |plan.Ps()| && 0 <= j < |plan.Ps()[i]| && plan.Ps()[i][j].Raw? ==> !IsContinuation(plan.Ps()[i][j].raw))
      && filters.root.ones == [] && filters.root.pairs == [] && filters.triples == []
      && asciiTriples.Some? && 4 <= |asciiTriples.value| && |asciiTriples.value| <= 8
    }

    /** Such sets reach the partition, unless tagged anchors serve them; no others do. */
    lemma {:induction false} LeftExactly()
      requires Valid() && !plan.mode.exact
      ensures PartitionReached() <==> LeftToPartition() && raw.None?
    {
      hide RawValid, SearchPlan.Valid, SpecialRoot, Held, AsciiKept, RootsFit, UnsafeRoots, GaveUp, Conservative, SearchPlan.NoSpareToken, SearchPlan.NoSpareWord, SearchPlan.Attained;
      OpaqueExactly(plan);
      EmptyExactly();
      if PartitionReached() {
        SomePattern();
      }
    }

    lemma {:induction false} EmptyExactly()
      requires plan.Valid()
      ensures |plan.Ps()| == |plan.patterns|
      ensures (forall i :: 0 <= i < |plan.Ps()| ==> plan.Ps()[i] != []) ==> plan.empty.None? && (|plan.patterns| > 0 ==> plan.maxUnits != 0)
    {
      if |plan.patterns| > 0 && plan.Ps()[0] != [] {
        assert |plan.Ps()[0]| <= plan.maxUnits;
      }
    }

    /** Tagged anchors take units of two bytes in every spelling, so no pattern they serve
        is spelled in ASCII, and the set is safe. */
    lemma {:induction false} RawIsSafe()
      requires Valid() && !plan.mode.exact && plan.mode.Valid() && raw.Some?
      ensures TruncationSafe(plan.mode, plan.Ps())
    {
      hide Compiled, SearchPlan.Valid, SpecialRoot, AnchorOf, AsciiSpelled, Dominant, PartOf;
      forall i: nat, j: nat, k: nat ensures !Shadows(plan.mode, plan.Ps(), i, j, k) {
        if i < |plan.Ps()| {
          AnchoredNotAscii(plan, raw.value.filter, i);
        }
      }
    }

    /** The exact condition for a matcher to be right on every text under every policy: its
        set is safe, or is not left to the partition. */
    lemma {:induction false} AlwaysExactly(z: byte, x: int)
      requires Valid() && !plan.mode.exact && plan.mode.Valid()
      requires 0 < z < 0x80 <= x && IsScalar(x) && Spare(plan.mode, plan.Ps(), z) && Spare(plan.mode, plan.Ps(), x)
      ensures (forall policy: Policy, h: Bytes :: Answered(policy, h) == FindFrom(plan.mode, h, plan.Ps()))
         <==> (LeftToPartition() ==> TruncationSafe(plan.mode, plan.Ps()))
    {
      hide Compiled, FindFrom, Partitioned, FirstUncut, Ends, PartitionUsable, FiltersUsable, FoldValid, SearchPlan.Valid, TruncationSafe, Spare, NextExceptional,
           AlwaysRight, LeftToPartition, Accepts, Answered;
      var m, ps := plan.mode, plan.Ps();
      LeftExactly();
      if raw.Some? {
        RawIsSafe();
      }
      forall policy: Policy, h: Bytes ensures Answered(policy, h) == FindFrom(m, h, ps) <==> Accepts(policy, h) {
        AnsweredExactly(policy, h);
      }
      if TruncationSafe(m, ps) {
        forall policy: Policy, h: Bytes ensures Answered(policy, h) == FindFrom(m, h, ps) {
          SafeAccepts(policy, h);
        }
      } else if !PartitionReached() {
        forall policy: Policy, h: Bytes ensures Answered(policy, h) == FindFrom(m, h, ps) {
          NotReached(policy, h);
        }
      } else {
        PatternBounds();
        RightIffSafe(m, ps, plan.maxBytes, z, x);
        if forall policy: Policy, h: Bytes :: Answered(policy, h) == FindFrom(m, h, ps) {
          AcceptedIsRight();
          assert false;
        }
      }
    }

    lemma {:induction false} NotReached(policy: Policy, h: Bytes)
      requires plan.mode.Valid() && !PartitionReached()
      ensures Answered(policy, h) == FindFrom(plan.mode, h, plan.Ps())
    {
      hide PartitionReached, FindFrom;
    }

    lemma {:induction false} PatternBounds()
      requires plan.Valid() && PartitionUsable()
      ensures plan.mode.Valid() && forall p :: p in plan.Ps() ==> p != [] && Encodable(p) && Span(plan.mode, p) <= plan.maxBytes
    {
    }

    lemma {:induction false} AcceptedIsRight()
      requires plan.mode.Valid() && PartitionReached() && forall policy: Policy, h: Bytes :: Accepts(policy, h)
      ensures AlwaysRight(plan.mode, plan.Ps(), plan.maxBytes)
    {
      hide Compiled, FindFrom, Partitioned, FirstUncut, Ends, PartitionReached, NextExceptional;
      var m, ps := plan.mode, plan.Ps();
      forall h: Bytes, admit: nat -> bool, s: nat | s < |h| && Exceptional(h[s]) && s == NextExceptional(h, 0)
        ensures Partitioned(m, h, ps, plan.maxBytes, admit, s) == FindFrom(m, h, ps)
      {
        var policy := Partitioning(admit);
        assert Accepts(policy, h) && policy.admitRun(h) == admit;
        AnsweredExactly(policy, h);
      }
    }

    /** An answer is a match. */
    lemma {:induction false} AnsweredMatches(policy: Policy, h: Bytes)
      requires plan.mode.Valid()
      ensures var hit := Answered(policy, h);
              hit.Some? ==> hit.value.start <= |h| && MatchesAt(plan.mode, h, hit.value.start, plan.Ps(), hit.value.pattern)
    {
      hide Compiled, FindFrom, Partitioned, Ends, PartitionReached;
      if Partitions(policy, h) {
        PartitionedOccurs(plan.mode, h, plan.Ps(), plan.maxBytes, policy.admitRun(h), NextExceptional(h, 0));
      } else {
        FindMatches(plan.mode, h, plan.Ps(), 0);
      }
    }

    // ----- compiling

    constructor (patterns: seq<Bytes>, exact: bool, fold: Fold.Table, ranking: Ranking)
      requires Fold.FoldsAscii(fold)
      ensures Valid() && plan.patterns == patterns && plan.mode == Mode(exact, fold)
    {
      hide SearchPlan.Valid, SearchPlan.NoSpareToken, SearchPlan.NoSpareWord, SearchPlan.Attained, SpecialRoot, AllRootsFit, AsciiKept, Held, RootsFit, UnsafeRoots, GaveUp, Conservative, ScreensAscii, Mapped, Armed, Gate, Anchored, Knows, Fold.FoldsAscii, ProbeReady, UnicodeReady, TripleReady, BucketReady, PartitionOne.Single;
      FoldsAreValid(fold);
      var p := new SearchPlan(patterns, exact, fold);
      plan := p;
      var needle', filters', triples', pairs', table', raw' := None, Filters(RootFilter([], []), []), None, None, None, None;
      var probe', unicode', window', buckets', generic' := None, None, None, None, false;
      if !exact {
        generic' := IsGeneric(p);
        needle' := LoneNeedle(p);
        filters', triples' := CompileFilters(p);
        pairs' := CompilePairs(p, ranking);
        table', raw' := CompileRaw(p, ranking);
        probe' := CompileProbe(p, ranking);
        unicode', window' := CompileUnicode(p);
        buckets' := MakeBucketRoute(p);
      }
      needle, filters, asciiTriples, pairs, table, raw := needle', filters', triples', pairs', table', raw';
      probe, unicode, window, buckets, generic := probe', unicode', window', buckets', generic';
    }

    static lemma {:induction false} FoldsAreValid(fold: Fold.Table)
      requires Fold.FoldsAscii(fold)
      ensures Fold.Valid(fold)
    {
    }

    static method CompileFilters(p: SearchPlan) returns (filters: Filters, triples: Option<seq<Triple>>)
      requires p.Valid() && !p.mode.exact
      ensures filters.Usable() ==> Conservative(p, filters)
      ensures triples.Some? ==> ScreensAscii(p, triples.value)
      ensures AsciiKept(p, triples)
      ensures Held(p.tokens, filters.root) && (filters.triples != [] ==> AllRootsFit(p, filters.triples))
      ensures RootsFit(p, {}) && !UnsafeRoots(p) ==> Conservative(p, filters)
      ensures Conservative(p, filters) || UnsafeRoots(p) || GaveUp(p, {})
    {
      hide SearchPlan.Valid, Conservative, ScreensAscii, AsciiKept, Held, AllRootsFit, RootsFit, UnsafeRoots, GaveUp;
      filters := MakeFilters(p);
      var ts, complete := MakeAsciiTriples(p);
      triples := if complete then Some(ts) else None;
    }

    /** Whether the roots are neither one byte nor one letter. */
    static method IsGeneric(p: SearchPlan) returns (generic: bool)
      requires p.Valid() && Fold.FoldsAscii(p.mode.fold)
      ensures generic <==> !SpecialRoot(p)
    {
      hide SearchPlan.Valid, SpecialRoot, Fold.FoldsAscii, Fold.FoldsAsciiLetters;
      Fold.AsciiLettersFold(p.mode.fold);
      var kind, needle, pairKind, pairNeedle := RootShape(p);
      return kind == AsciiSkip.Generic;
    }

    /** The only pattern, when it is three or more ASCII bytes. */
    static method LoneNeedle(p: SearchPlan) returns (needle: Option<Bytes>)
      requires p.Valid() && !p.mode.exact && Fold.FoldsAscii(p.mode.fold)
      ensures needle.Some? ==> PartitionOne.Single(p, needle.value)
    {
      if |p.patterns| == 1 && AsciiNeedle(p.patterns[0]) {
        assert p.patterns == [p.patterns[0]];
        return Some(p.patterns[0]);
      }
      return None;
    }

    static method CompileProbe(p: SearchPlan, ranking: Ranking) returns (route: Option<ProbeRoute>)
      requires p.Valid() && !p.mode.exact && Fold.FoldsAscii(p.mode.fold) && p.Attained(|p.patterns|)
      ensures route.Some? ==> |p.patterns| == 1 && ProbeReady(p, p.patterns[0], route.value)
    {
      hide SearchPlan.Valid, ProbeReady, Fold.FoldsAscii;
      if |p.patterns| != 1 {
        return None;
      }
      assert p.patterns == [p.patterns[0]];
      route := MakeProbeRoute(p, p.patterns[0], ranking.rarer);
    }

    static method CompileUnicode(p: SearchPlan) returns (route: Option<UnicodeRoute>, window: Option<TripleRoute>)
      requires p.Valid() && !p.mode.exact
      ensures route.Some? ==> UnicodeReady(p, route.value)
      ensures window.Some? ==> TripleReady(p, window.value)
    {
      hide SearchPlan.Valid, OpaqueContinuation, UnicodeReady, TripleReady;
      if |p.patterns| != 1 || p.patterns[0] == [] || OpaqueContinuation(p) {
        return None, None;
      }
      route := MakeUnicodeRoute(p);
      window := MakeTripleRoute(p);
    }

    static method CompilePairs(p: SearchPlan, ranking: Ranking) returns (pairs: Option<PairRoute>)
      requires p.Valid() && !p.mode.exact && Fold.FoldsAscii(p.mode.fold)
      ensures pairs.Some? ==>
                Anchored(p, pairs.value.anchors, |p.patterns|) &&
                forall k :: 0 <= k < |pairs.value.anchors| ==>
                  pairs.value.anchors[k].at <= pairs.value.maxAt && Knows(pairs.value.tables, pairs.value.anchors[k], k)
    {
      hide Anchored, Fold.FoldsAscii;
      var anchors, maxAt := MakeASCIIPairAnchors(p, ranking.pairs);
      var tables := MakeASCIIPairAnchorFilter(anchors);
      pairs := if anchors == [] then None else Some(PairRoute(anchors, maxAt, tables));
    }

    static method CompileRaw(p: SearchPlan, ranking: Ranking) returns (table: Option<seq<nat>>, raw: Option<RawRoutes>)
      requires p.Valid() && !p.mode.exact
      ensures MapOf(p, table)
      ensures raw.Some? ==>
                && table.Some? && Armed(p, raw.value.filter)
                && (raw.value.gate.Some? ==> Gate(p, |p.patterns|, raw.value.gate.value.0, raw.value.gate.value.1))
    {
      hide Mapped, Armed, Gate;
      var ok, compact := MakeRawByteTokenPlan(p);
      if !ok {
        return None, None;
      }
      var filter := MakeRawByteMultiAnchorFilter(p, ranking.anchors);
      if filter.None? {
        return Some(compact), None;
      }
      var gate := RawByteOriginGateFor(p, ranking.bytes);
      return Some(compact), Some(RawRoutes(filter.value, gate));
    }

    // ----- Find

    /** Without usable byte filters: the partitioned search where it is admitted, else the
        decoded scan. */
    method FindUnfiltered(h: Bytes, policy: Policy) returns (hit: Option<Hit>)
      requires Valid() && !plan.mode.exact && plan.mode.Valid()
      ensures hit == if PartitionUsable() && policy.admits(h, ByPartition) && NextExceptional(h, 0) < |h|
                     then Partitioned(plan.mode, h, plan.Ps(), plan.maxBytes, policy.admitRun(h), NextExceptional(h, 0))
                     else FindFrom(plan.mode, h, plan.Ps())
    {
      hide Compiled, FindFrom, TruncationSafe, Partitioned, NextExceptional, ProbeReady, UnicodeReady, TripleReady, BucketReady, Conservative, ScreensAscii, Mapped, Armed, Gate, Anchored, Fold.FoldsAscii, OpaqueContinuation;
      Fold.AsciiLettersFold(plan.mode.fold);
      if PartitionUsable() && policy.admits(h, ByPartition) {
        var firstHigh := NextException(h, 0);
        if firstHigh < |h| {
          hit := FindPartitionedASCII(plan, h, asciiTriples.value, firstHigh, policy.admitRun(h));
          return;
        }
      }
      hit := FindUnfilteredDecodedLegacy(plan, h);
    }

    /** The routes for one ASCII pattern. */
    method FindLone(h: Bytes, policy: Policy) returns (hit: Option<Hit>, handled: bool)
      requires Valid() && !plan.mode.exact && needle.Some?
      ensures handled ==> hit == FindFrom(plan.mode, h, plan.Ps())
    {
      hide Compiled, FindFrom, ProbeReady, UnicodeReady, TripleReady, BucketReady, Conservative, ScreensAscii, Mapped, Armed, Gate, Anchored, Fold.FoldsAscii;
      var probe: seq<nat> := ProbeOf(needle.value);
      hit, handled := None, false;
      if policy.admits(h, ByLonePartition) {
        hit, handled := FindASCIIOnlyPartitioned(plan, h, needle.value, probe, policy.admits(h, ByPartition), policy.admitRun(h));
      } else if policy.admits(h, ByLoneProbe) {
        hit, handled := FindASCIIOnlyPartitioned(plan, h, needle.value, probe, false, (at: nat) => false);
      }
    }

    /** The probe looks at the first, the middle and the last byte. */
    static function ProbeOf(needle: Bytes): (probe: seq<nat>)
      requires |needle| > 0
      ensures forall k :: 0 <= k < |probe| ==> probe[k] < |needle|
    {
      var middle: nat, last: nat := |needle| / 2, |needle| - 1;
      [0, middle, last]
    }

    /** The search entry point: the first route whose guards hold. The answer is right
        exactly where the policy is accepted. */
    method Find(h: Bytes, policy: Policy) returns (hit: Option<Hit>)
      requires Valid()
      ensures plan.mode.Valid() && hit == Answered(policy, h)
      ensures hit == FindFrom(plan.mode, h, plan.Ps()) <==> Accepts(policy, h)
    {
      hide SearchPlan.Valid, FoldValid, FindFrom, Accepts, Partitioned, PartitionUsable, FiltersUsable, NextExceptional;
      ModeOf(plan);
      AnsweredExactly(policy, h);
      if plan.maxUnits == 0 {
        NothingToRead(h);
        return if plan.empty.Some? then Some(Hit(plan.empty.value, 0)) else None;
      }
      if plan.mode.exact {
        hit := FindExactBytes(plan, h);
        return;
      }
      if OpaqueContinuation(plan) {
        NotPartitioned(policy, h);
        hit := FindUnfiltered(h, policy);
        return;
      }
      var handled;
      hit, handled := FindSingle(h, policy);
      if handled {
        NotPartitioned(policy, h);
        return;
      }
      hit := FindAny(h, policy);
    }

    /** Neither opaque continuations nor a single pattern are partitioned. */
    lemma {:induction false} NotPartitioned(policy: Policy, h: Bytes)
      requires OpaqueContinuation(plan) || |plan.patterns| <= 1
      ensures !PartitionUsable() && !Partitions(policy, h)
    {
    }

    /** The routes that only a single pattern has. */
    method FindSingle(h: Bytes, policy: Policy) returns (hit: Option<Hit>, handled: bool)
      requires Valid() && !plan.mode.exact
      ensures handled ==> |plan.patterns| == 1 && plan.mode.Valid() && hit == FindFrom(plan.mode, h, plan.Ps())
    {
      hide Compiled, FindFrom, ProbeReady, UnicodeReady, UnicodeTriples.ShowsTriple, BucketReady, Conservative, ScreensAscii, Mapped, Armed, Gate, Anchored, Fold.FoldsAscii, OpaqueContinuation, SearchPlan.Valid, Knows;
      ModeOf(plan);
      if probe.Some? && (probe.value.run.Some? || policy.admits(h, ByProbe)) {
        hit := FindProbed(plan, plan.patterns[0], probe.value, h, policy.way(h), policy.mask(|h|) + 1);
        return hit, true;
      }
      if needle.Some? {
        hit, handled := FindLone(h, policy);
        if handled {
          return;
        }
      }
      if unicode.Some? && policy.admits(h, ByUnicodePair) {
        IsSingle();
        hit := FindUnicodePairAnchor(plan, unicode.value, h, policy.admits(h, ByVector));
        return hit, true;
      }
      if window.Some? && |window.value.triples| == 1 {
        hit := UnicodeTriples.FindUnicodeAnchor(plan, window.value.tokens, window.value.triples, window.value.at, h);
        return hit, true;
      }
      return None, false;
    }

    lemma {:induction false} IsSingle()
      requires unicode.Some? && UnicodeReady(plan, unicode.value)
      ensures |plan.patterns| == 1
    {
    }

    /** The routes of any set: raw bytes, ASCII anchors and triples, filters, and at last the
        search without filters. */
    method FindAny(h: Bytes, policy: Policy) returns (hit: Option<Hit>)
      requires Valid() && !plan.mode.exact && plan.mode.Valid() && plan.maxUnits != 0 && !OpaqueContinuation(plan)
      ensures hit == Answered(policy, h)
    {
      hide Compiled, FindFrom, Partitioned, PartitionUsable, ProbeReady, UnicodeReady, TripleReady, BucketReady, Conservative, ScreensAscii, Mapped, Armed, Gate, Anchored, Fold.FoldsAscii, OpaqueContinuation, TruncationSafe, SearchPlan.Valid, Knows, NextExceptional;
      if raw.Some? {
        if raw.value.gate.Some? && policy.admits(h, ByOrigin) {
          hit := FindRawByteOrigin(plan, table.value, raw.value.filter, h, raw.value.gate.value);
        } else {
          hit := FindRawByteFixedAnchored(plan, table.value, raw.value.filter, h);
        }
        return;
      }
      var firstException := NextException(h, 0);
      if firstException == |h| {
        AllAscii(h);
        if pairs.Some? && policy.admits(h, ByPairs) {
          hit := FindASCIIPairAnchored(plan, h, pairs.value.anchors, pairs.value.maxAt, pairs.value.tables);
          return;
        }
        if |plan.patterns| > 1 && generic && asciiTriples.Some? && 4 <= |asciiTriples.value| <= 8 && policy.admits(h, ByAsciiTriples) {
          hit := FindASCIITripleFilteredRange(plan, h, 0, |h|, asciiTriples.value);
          assert h[0..|h|] == h;
          return;
        }
      }
      if FiltersUsable() {
        hit := FindFiltered(plan, table, h, filters);
        return;
      }
      hit := FindUnfiltered(h, policy);
    }

    lemma {:induction false} AllAscii(h: Bytes)
      requires NextExceptional(h, 0) == |h|
      ensures AsciiRange(h, 0, |h|)
    {
    }

    /** When no pattern has a unit, the lowest empty one matches at once. */
    lemma {:induction false} NothingToRead(h: Bytes)
      requires Valid() && plan.maxUnits == 0
      ensures FindFrom(plan.mode, h, plan.Ps()) == if plan.empty.Some? then Some(Hit(plan.empty.value, 0)) else None
    {
      hide FoldValid, AllRows;
      var m, ps := plan.mode, plan.Ps();
      var best: Option<Hit> := if plan.empty.Some? then Some(Hit(plan.empty.value, 0)) else None;
      if plan.empty.Some? {
        assert MatchesAt(m, h, 0, ps, plan.empty.value);
      }
      assert Answer(m, h, ps, 0, |h|, best);
      WholeIs(m, h, ps, best);
    }

    // ----- Each

    /** The width that a found match consumes. */
    method WidthOf(h: Bytes, start: nat, pattern: nat) returns (width: nat)
      requires Valid() && start <= |h| && MatchesAt(plan.mode, h, start, plan.Ps(), pattern)
      ensures MatchEnd(plan.mode, h, start, plan.Ps()[pattern]) == Some(start + width)
    {
      hide FoldValid, MatchEnd, SearchPlan.Valid;
      ModeOf(plan);
      MatchIsWalk(plan.mode, h, start, plan.Ps()[pattern]);
      if plan.mode.exact {
        ExactUnits(plan.mode, plan.patterns[pattern], 0);
        return |plan.patterns[pattern]|;
      }
      var units := RuneCount(plan.mode, plan.patterns[pattern]);
      var end := MatcherMatchEnd(plan.mode, h, start, units);
      width := end - start;
    }

    /** The answer for the text from `at` on, as a hit of the whole text. */
    ghost function AnsweredFrom(policy: Policy, h: Bytes, at: nat): Option<Hit>
      requires plan.mode.Valid() && at <= |h|
      reads plan
    {
      Shift(Answered(policy, h[at..]), at)
    }

    lemma {:induction false} AnsweredFromMatches(policy: Policy, h: Bytes, at: nat)
      requires plan.mode.Valid() && at <= |h|
      ensures var hit := AnsweredFrom(policy, h, at);
              hit.Some? ==> at <= hit.value.start <= |h| && MatchesAt(plan.mode, h, hit.value.start, plan.Ps(), hit.value.pattern)
    {
      hide Answered, MatchEnd;
      AnsweredMatches(policy, h[at..]);
      var hit := Answered(policy, h[at..]);
      if hit.Some? {
        MatchSuffix(plan.mode, h, at, hit.value.start, plan.Ps()[hit.value.pattern]);
      }
    }

    /** Enumeration by repeated searches. */
    ghost function EachBy(policy: Policy, h: Bytes, at: nat): (es: seq<Emit>)
      requires plan.mode.Valid()
      reads plan
      decreases |h| + 1 - at
    {
      if at > |h| then []
      else
        AnsweredFromMatches(policy, h, at);
        match AnsweredFrom(policy, h, at)
        case None => []
        case Some(hit) =>
          var e := EmitOf(plan.mode, h, plan.Ps(), hit);
          [e] + EachBy(policy, h, Resume(plan.mode, h, e))
    }

    /** The texts whose matches are enumerated by a route of their own. */
    predicate Enumerated(policy: Policy, h: Bytes) {
      && !plan.mode.exact
      && (raw.Some? || (buckets.Some? && policy.admits(h, ByBuckets)) || (probe.Some? && policy.admits(h, ByProbe)))
    }

    /** What the matcher enumerates, for every set, text and policy. */
    ghost function Emitted(policy: Policy, h: Bytes): seq<Emit>
      requires plan.mode.Valid()
      reads plan
    {
      if Enumerated(policy, h) then EachFrom(plan.mode, h, plan.Ps(), 0) else EachBy(policy, h, 0)
    }

    /** Where every search is right, so is the enumeration. */
    lemma {:induction false} AcceptedEach(policy: Policy, h: Bytes, at: nat)
      requires plan.mode.Valid() && forall k :: 0 <= k <= |h| ==> Accepts(policy, h[k..])
      ensures EachBy(policy, h, at) == EachFrom(plan.mode, h, plan.Ps(), at)
      decreases |h| + 1 - at
    {
      hide Accepts, Answered, FindFrom, MatchEnd, SizeAt;
      if at <= |h| {
        AnsweredExactly(policy, h[at..]);
        FindSuffix(plan.mode, h, plan.Ps(), at, 0);
        AnsweredFromMatches(policy, h, at);
        var hit := AnsweredFrom(policy, h, at);
        if hit.Some? {
          AcceptedEach(policy, h, Resume(plan.mode, h, EmitOf(plan.mode, h, plan.Ps(), hit.value)));
        }
      }
    }

    /** A wrong search at the start is a wrong enumeration. */
    lemma {:induction false} FirstTells(policy: Policy, h: Bytes)
      requires plan.mode.Valid() && EachBy(policy, h, 0) == EachFrom(plan.mode, h, plan.Ps(), 0)
      ensures Accepts(policy, h)
    {
      hide Accepts, Answered, FindFrom, MatchEnd, SizeAt;
      assert h[0..] == h;
      AnsweredExactly(policy, h);
      AnsweredFromMatches(policy, h, 0);
      FindMatches(plan.mode, h, plan.Ps(), 0);
      var es, all := EachBy(policy, h, 0), EachFrom(plan.mode, h, plan.Ps(), 0);
      if es != [] {
        assert es[0] == all[0];
      }
    }

    /** The exact condition for enumeration to be right on every text under every policy. */
    lemma {:induction false} EachAlwaysExactly(z: byte, x: int)
      requires Valid() && !plan.mode.exact && plan.mode.Valid()
      requires 0 < z < 0x80 <= x && IsScalar(x) && Spare(plan.mode, plan.Ps(), z) && Spare(plan.mode, plan.Ps(), x)
      ensures (forall policy: Policy, h: Bytes :: Emitted(policy, h) == EachFrom(plan.mode, h, plan.Ps(), 0))
         <==> (LeftToPartition() ==> TruncationSafe(plan.mode, plan.Ps()))
    {
      hide Accepts, Answered, FoldValid, SearchPlan.Valid, TruncationSafe, Spare, EachFrom, EachBy, PartitionUsable, FiltersUsable, Partitioned, FindFrom,
           LeftToPartition, Emitted;
      AlwaysExactly(z, x);
      forall policy: Policy, h: Bytes ensures Answered(policy, h) == FindFrom(plan.mode, h, plan.Ps()) <==> Accepts(policy, h) {
        AnsweredExactly(policy, h);
      }
      if forall policy: Policy, h: Bytes :: Accepts(policy, h) {
        forall policy: Policy, h: Bytes ensures Emitted(policy, h) == EachFrom(plan.mode, h, plan.Ps(), 0) {
          AcceptedEmitted(policy, h);
        }
      }
      if forall policy: Policy, h: Bytes :: Emitted(policy, h) == EachFrom(plan.mode, h, plan.Ps(), 0) {
        forall policy: Policy, h: Bytes ensures Accepts(policy, h) {
          var alone := policy.(admits := (b: Bytes, w: Route) => w == ByPartition && policy.admits(b, w));
          EmittedTells(alone, h);
          OnlyPartition(policy, alone, h);
        }
      }
    }

    lemma {:induction false} AcceptedEmitted(policy: Policy, h: Bytes)
      requires plan.mode.Valid() && forall k :: 0 <= k <= |h| ==> Accepts(policy, h[k..])
      ensures Emitted(policy, h) == EachFrom(plan.mode, h, plan.Ps(), 0)
    {
      hide Accepts, EachBy, EachFrom;
      AcceptedEach(policy, h, 0);
    }

    /** A policy that refuses every other route enumerates by searching, or has nothing to
        partition. */
    lemma {:induction false} EmittedTells(policy: Policy, h: Bytes)
      requires Valid() && plan.mode.Valid() && !policy.admits(h, ByBuckets) && !policy.admits(h, ByProbe)
      requires Emitted(policy, h) == EachFrom(plan.mode, h, plan.Ps(), 0)
      ensures Accepts(policy, h)
    {
      hide FoldValid, SearchPlan.Valid, EachFrom, EachBy, PartitionUsable, FiltersUsable, FirstUncut, Ends, NextExceptional;
      if raw.None? || plan.mode.exact {
        FirstTells(policy, h);
      }
    }

    /** Acceptance depends on what the policy says of the partition. */
    lemma {:induction false} OnlyPartition(a: Policy, b: Policy, h: Bytes)
      requires plan.mode.Valid() && a.admits(h, ByPartition) == b.admits(h, ByPartition) && a.admitRun(h) == b.admitRun(h)
      ensures Accepts(a, h) <==> Accepts(b, h)
    {
      hide PartitionReached, FirstUncut, Ends, NextExceptional;
    }

    /** Call `goOn` with each non-overlapping match in turn, until it declines. */
    method Each(h: Bytes, policy: Policy, goOn: seq<Emit> -> bool) returns (emitted: seq<Emit>, done: bool)
      requires Valid()
      ensures plan.mode.Valid() && Enumerates(Emitted(policy, h), goOn, emitted, done)
      ensures (forall at :: 0 <= at <= |h| ==> Accepts(policy, h[at..])) ==> Enumerates(EachFrom(plan.mode, h, plan.Ps(), 0), goOn, emitted, done)
    {
      hide FoldValid, SearchPlan.Valid, EachFrom, EachBy, Accepts, Enumerates;
      ModeOf(plan);
      if forall at :: 0 <= at <= |h| ==> Accepts(policy, h[at..]) {
        AcceptedEach(policy, h, 0);
      }
      if raw.Some? && !plan.mode.exact {
        emitted, done := EachRaw(h, goOn);
        return;
      }
      if buckets.Some? && !plan.mode.exact && policy.admits(h, ByBuckets) {
        emitted, done := EachBuckets(h, policy, goOn);
        return;
      }
      if probe.Some? && !plan.mode.exact && policy.admits(h, ByProbe) {
        emitted, done := EachProbed(h, goOn);
        return;
      }
      emitted, done := EachSearched(h, policy, goOn);
    }

    /** Search, report, and go on behind the match, or behind the unit there when it is
        empty. */
    method EachSearched(h: Bytes, policy: Policy, goOn: seq<Emit> -> bool) returns (emitted: seq<Emit>, done: bool)
      requires Valid() && plan.mode.Valid()
      ensures Enumerates(EachBy(policy, h, 0), goOn, emitted, done)
    {
      hide FoldValid, SearchPlan.Valid, FindFrom, EachBy, Accepts, Answered, MatchEnd, SizeAt, Enumerates, Emitting;
      ghost var m, ps := plan.mode, plan.Ps();
      ghost var all := EachBy(policy, h, 0);
      var at: nat := 0;
      emitted := [];
      EmitNothing(all, goOn);
      while at <= |h|
        invariant Emitting(all, goOn, emitted, EachBy(policy, h, at))
        decreases |h| + 1 - at
      {
        var hit := Find(h[at..], policy);
        AnsweredFromMatches(policy, h, at);
        if hit.None? {
          EmitNone(policy, h, at);
          EmitDone(all, goOn, emitted);
          return emitted, true;
        }
        var start := hit.value.start + at;
        var width := WidthOf(h, start, hit.value.pattern);
        var e := Emit(hit.value.pattern, start, width);
        EmitNext(policy, h, at, e);
        EmitMore(all, goOn, emitted, e, EachBy(policy, h, Resume(m, h, e)));
        emitted := emitted + [e];
        if !goOn(emitted) {
          return emitted, false;
        }
        if width != 0 {
          at := start + width;
        } else if start == |h| {
          EndOfText(policy, h, Resume(m, h, e));
          EmitDone(all, goOn, emitted);
          return emitted, true;
        } else {
          at := start + SizeAt(plan.mode, h, start);
        }
      }
      EndOfText(policy, h, at);
      EmitDone(all, goOn, emitted);
      done := true;
    }

    lemma {:induction false} EndOfText(policy: Policy, h: Bytes, at: nat)
      requires plan.mode.Valid() && at > |h|
      ensures EachBy(policy, h, at) == []
    {
    }

    lemma {:induction false} EmitNone(policy: Policy, h: Bytes, at: nat)
      requires plan.mode.Valid() && at <= |h| && AnsweredFrom(policy, h, at) == None
      ensures EachBy(policy, h, at) == []
    {
      hide Answered;
    }

    lemma {:induction false} EmitNext(policy: Policy, h: Bytes, at: nat, e: Emit)
      requires plan.mode.Valid() && at <= |h| && AnsweredFrom(policy, h, at) == Some(Hit(e.pattern, e.start)) && at <= e.start
      requires e.start <= |h| && e.pattern < |plan.Ps()| && MatchEnd(plan.mode, h, e.start, plan.Ps()[e.pattern]) == Some(e.start + e.width)
      ensures e.start + e.width <= |h| && EachBy(policy, h, at) == [e] + EachBy(policy, h, Resume(plan.mode, h, e))
    {
      hide Answered;
      AnsweredFromMatches(policy, h, at);
    }

    method EachRaw(h: Bytes, goOn: seq<Emit> -> bool) returns (emitted: seq<Emit>, done: bool)
      requires Valid() && raw.Some? && !plan.mode.exact
      ensures Enumerates(EachFrom(plan.mode, h, plan.Ps(), 0), goOn, emitted, done)
    {
      hide Compiled, Enumerates, EachFrom, ProbeReady, UnicodeReady, TripleReady, BucketReady, Conservative, ScreensAscii, Mapped, Armed, Gate, Anchored, Fold.FoldsAscii;
      emitted, done := EachRawByteFixedAnchored(plan, table.value, raw.value.filter, h, goOn);
    }

    method EachBuckets(h: Bytes, policy: Policy, goOn: seq<Emit> -> bool) returns (emitted: seq<Emit>, done: bool)
      requires Valid() && buckets.Some? && !plan.mode.exact
      ensures Enumerates(EachFrom(plan.mode, h, plan.Ps(), 0), goOn, emitted, done)
    {
      hide Compiled, Enumerates, EachFrom, Conservative, ScreensAscii, RawValid, BucketReady, UnicodeReady, ProbeReady, Anchored, Fold.FoldsAscii;
      emitted, done := EachBucket(plan, buckets.value, h, policy.blocks, goOn);
    }

    method EachProbed(h: Bytes, goOn: seq<Emit> -> bool) returns (emitted: seq<Emit>, done: bool)
      requires Valid() && probe.Some? && !plan.mode.exact
      ensures Enumerates(EachFrom(plan.mode, h, plan.Ps(), 0), goOn, emitted, done)
    {
      hide Compiled, Enumerates, EachFrom, Conservative, ScreensAscii, RawValid, BucketReady, UnicodeReady, Anchored, Fold.FoldsAscii;
      var route := probe.value;
      emitted, done := FixedAnchor.EachASCIIProbe(plan, plan.patterns[0], route.tokens, route.each, route.verify, h, goOn);
    }
  }

  /** A pattern with a sound anchor has a unit that no ASCII character folds with. */
  lemma {:induction false} AnchoredNotAscii(p: SearchPlan, f: MultiAnchors.Filter, i: nat)
    requires !p.mode.exact && AnchorOf(p, f, i)
    ensures i < |p.Ps()| && p.mode.Valid() && !AsciiSpelled(p.mode, p.Ps()[i])
  {
    var m, a := p.mode, p.Ps()[i];
    var runes :| RunesOf(a, runes) && MultiAnchors.Sound(m.fold, runes, f.anchors[i]);
    var u: nat, v: nat, w: nat :| MultiAnchors.SoundAt(m.fold, runes, f.anchors[i], u, v, w);
    if AsciiSpelled(m, a) {
      assert AsciiFolds(m, a[u]);
      var b: byte :| 0 < b < 0x80 && Same(m, Rune(b), a[u]);
      Fold.OrbitSymmetric(m.fold, b, runes[u]);
      assert false;
    }
  }
}
