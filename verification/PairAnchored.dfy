/** The all-ASCII search by adjacent pairs. One pair of every pattern's ASCII spelling is
    entered in nibble tables; a position the tables admit maps to starts, which a replay
    of the plan confirms. A result is final once no earlier start can still show its pair. */
module PairAnchored {
  import opened Utf8
  import opened Spec
  import opened Answers
  import opened Automaton
  import opened Lexer
  import opened Links
  import opened AsciiSkip
  import opened Plan
  import opened Search
  import opened Decoded
  import opened RootFilters
  import opened TripleFilters
  import opened NibbleTables
  import opened Partition
  import opened RawMatch
  import Fold

  const ANCHOR_SLOTS := 8

  /** Two adjacent bytes of a spelling, with their case bits set, and where they stand. */
  datatype PairAnchor = PairAnchor(first: byte, second: byte, at: nat)

  /** Every ASCII byte that matches `u` is `value` once its case bit is set. */
  ghost predicate LowerOf(m: Mode, u: CodeUnit, value: byte)
    requires m.Valid()
  {
    forall b: byte :: IsAscii(b) && Same(m, Rune(b), u) ==> Lower(b) == value
  }

  ghost predicate NoAscii(m: Mode, u: CodeUnit)
    requires m.Valid()
  {
    forall b: byte :: IsAscii(b) ==> !Same(m, Rune(b), u)
  }

  /** The pair stands in pattern `i`, whatever its ASCII spelling. */
  ghost predicate AnchorFor(m: Mode, a: Pattern, anchor: PairAnchor)
    requires m.Valid()
  {
    anchor.at + 1 < |a| && LowerOf(m, a[anchor.at], anchor.first) && LowerOf(m, a[anchor.at + 1], anchor.second)
  }

  // ----- spelling a pattern in ASCII

  /** An ASCII rune that folds with `r`, its case bit set. */
  method AsciiMember(m: Mode, r: int) returns (value: Option<byte>)
    requires m.Valid() && Fold.FoldsAscii(m.fold) && IsScalar(r)
    ensures value.None? ==> NoAscii(m, Rune(r))
    ensures value.Some? ==> LowerOf(m, Rune(r), value.value)
  {
    var members := Fold.Orbit(m.fold, r);
    for k := 0 to |members|
      invariant forall j :: 0 <= j < k ==> !(0 <= members[j] < 0x80)
    {
      if 0 <= members[k] < 0x80 {
        assert members[k] in members;
        MemberLower(m, r, members[k]);
        return Some(Lower(members[k]));
      }
    }
    forall b: byte | IsAscii(b) ensures !Same(m, Rune(b), Rune(r)) {
      if Same(m, Rune(b), Rune(r)) {
        SameSymmetric(m, Rune(b), Rune(r));
        assert false;
      }
    }
    return None;
  }

  lemma {:induction false} MemberLower(m: Mode, r: int, x: byte)
    requires m.Valid() && Fold.FoldsAscii(m.fold) && IsAscii(x) && Fold.SameOrbit(m.fold, r, x)
    ensures LowerOf(m, Rune(r), Lower(x))
  {
    forall b: byte | IsAscii(b) && Same(m, Rune(b), Rune(r)) ensures Lower(b) == Lower(x) {
      Fold.OrbitTransitive(m.fold, b, r, x);
    }
  }

  /** The ASCII spelling of a pattern; none when some unit has no ASCII member. */
  method AsciiFoldSpelling(p: SearchPlan, id: nat) returns (spelling: Option<Bytes>)
    requires p.Valid() && !p.mode.exact && Fold.FoldsAscii(p.mode.fold) && id < |p.patterns|
    ensures spelling.None? ==> exists k :: 0 <= k < |p.Ps()[id]| && NoAscii(p.mode, p.Ps()[id][k])
    ensures spelling.Some? ==>
              |spelling.value| == |p.Ps()[id]| && forall k :: 0 <= k < |p.Ps()[id]| ==> LowerOf(p.mode, p.Ps()[id][k], spelling.value[k])
  {
    hide SearchPlan.Valid, LowerOf, NoAscii, Fold.FoldsAscii, FormLen, FormRune;
    ModeOf(p);
    var s := p.patterns[id];
    var out: Bytes, at: nat := [], 0;
    ghost var us := p.Ps()[id];
    assert us[0..] == us;
    while at < |s|
      invariant at <= |s| && |out| <= |us| && us[|out|..] == Units(p.mode, s, at)
      invariant forall k :: 0 <= k < |out| ==> LowerOf(p.mode, us[k], out[k])
      decreases |s| - at
    {
      assert us[|out|] == us[|out|..][0] == UnitAt(p.mode, s, at) && us[|out| + 1..] == us[|out|..][1..];
      if FormLen(s, at) == 0 {
        OpaqueNoAscii(p.mode, s[at]);
        return None;
      }
      var value := AsciiMember(p.mode, FormRune(s, at));
      if value.None? {
        return None;
      }
      out, at := out + [value.value], at + FormLen(s, at);
    }
    return Some(out);
  }

  lemma {:induction false} OpaqueNoAscii(m: Mode, b: byte)
    requires m.Valid()
    ensures NoAscii(m, Raw(b))
  {
  }

  /** The pair of a spelling with the least cost. */
  method ChooseASCIIPairAnchor(spelling: Bytes, score: (byte, byte) -> nat) returns (at: nat)
    requires |spelling| >= 2
    ensures at + 1 < |spelling|
  {
    at := 0;
    var bestScore, bestInterior := score(spelling[0], spelling[1]), 0;
    for k := 1 to |spelling| - 1
      invariant at + 1 < |spelling|
    {
      var cost := score(spelling[k], spelling[k + 1]);
      var tail := |spelling| - 2 - k;
      var interior := if tail < k then tail else k;
      if cost < bestScore || (cost == bestScore && interior > bestInterior) {
        at, bestScore, bestInterior := k, cost, interior;
      }
    }
  }

  /** The anchors cover every pattern that ASCII text can spell. */
  ghost predicate Anchored(p: SearchPlan, anchors: seq<PairAnchor>, n: nat)
    reads p
  {
    p.mode.Valid() && forall i: nat :: i < n && i < |p.patterns| ==> AnchoredPattern(p, anchors, i)
  }

  ghost predicate AnchoredPattern(p: SearchPlan, anchors: seq<PairAnchor>, i: nat)
    reads p
  {
    && p.mode.Valid() && i < |p.Ps()|
    && (p.Ps()[i] == []
        || (exists k :: 0 <= k < |p.Ps()[i]| && NoAscii(p.mode, p.Ps()[i][k]))
        || exists k :: 0 <= k < |anchors| && AnchorFor(p.mode, p.Ps()[i], anchors[k]))
  }

  lemma {:induction false} MoreAnchors(p: SearchPlan, anchors: seq<PairAnchor>, anchor: PairAnchor, n: nat)
    requires Anchored(p, anchors, n)
    ensures Anchored(p, anchors + [anchor], n)
  {
    hide AnchorFor;
    var more := anchors + [anchor];
    forall i: nat | i < n && i < |p.patterns| ensures AnchoredPattern(p, more, i) {
      assert AnchoredPattern(p, anchors, i);
      if k :| 0 <= k < |anchors| && AnchorFor(p.mode, p.Ps()[i], anchors[k]) {
        assert more[k] == anchors[k];
      }
    }
  }

  /** One anchor for every pattern with an ASCII spelling, or none at all. */
  method MakeASCIIPairAnchors(p: SearchPlan, score: (byte, byte) -> nat) returns (anchors: seq<PairAnchor>, maxAt: nat)
    requires p.Valid() && !p.mode.exact && Fold.FoldsAscii(p.mode.fold)
    ensures anchors != [] ==> Anchored(p, anchors, |p.patterns|)
    ensures |anchors| <= ANCHOR_SLOTS && forall k :: 0 <= k < |anchors| ==> anchors[k].at <= maxAt
  {
    hide AllRows, LowerOf, NoAscii, Fold.FoldsAscii, Anchored;
    anchors, maxAt := [], 0;
    NothingAnchored(p);
    for id := 0 to |p.patterns|
      invariant |anchors| <= ANCHOR_SLOTS && Anchored(p, anchors, id) && forall k :: 0 <= k < |anchors| ==> anchors[k].at <= maxAt
    {
      if p.patterns[id] == [] {
        AnchorNext(p, anchors, id);
        continue;
      }
      var spelling := AsciiFoldSpelling(p, id);
      if spelling.None? {
        AnchorNext(p, anchors, id);
        continue;
      }
      if |spelling.value| < 2 || |anchors| == ANCHOR_SLOTS {
        return [], 0;
      }
      var at := ChooseASCIIPairAnchor(spelling.value, score);
      if at > 255 {
        return [], 0;
      }
      var anchor := PairAnchor(spelling.value[at], spelling.value[at + 1], at);
      MoreAnchors(p, anchors, anchor, id);
      anchors := anchors + [anchor];
      assert AnchorFor(p.mode, p.Ps()[id], anchors[|anchors| - 1]);
      AnchorNext(p, anchors, id);
      if at > maxAt {
        maxAt := at;
      }
    }
  }

  lemma {:induction false} NothingAnchored(p: SearchPlan)
    requires p.mode.Valid()
    ensures Anchored(p, [], 0)
  {
  }

  lemma {:induction false} AnchorNext(p: SearchPlan, anchors: seq<PairAnchor>, id: nat)
    requires Anchored(p, anchors, id) && AnchoredPattern(p, anchors, id)
    ensures Anchored(p, anchors, id + 1)
  {
  }

  // ----- the tables

  datatype PairTables = PairTables(first: Table, second: Table)

  /** The tables know anchor number `k`. */
  predicate Knows(ts: PairTables, anchor: PairAnchor, k: nat) {
    k in ts.first.At(anchor.first) && k in ts.second.At(anchor.second)
  }

  function FirstCells(anchors: seq<PairAnchor>): (cells: seq<Cell>)
    ensures |cells| == |anchors| && forall k :: 0 <= k < |anchors| ==> cells[k] == Cell(anchors[k].first, false)
  {
    seq(|anchors|, k requires 0 <= k < |anchors| => Cell(anchors[k].first, false))
  }

  function SecondCells(anchors: seq<PairAnchor>): (cells: seq<Cell>)
    ensures |cells| == |anchors| && forall k :: 0 <= k < |anchors| ==> cells[k] == Cell(anchors[k].second, false)
  {
    seq(|anchors|, k requires 0 <= k < |anchors| => Cell(anchors[k].second, false))
  }

  ghost predicate AnchorTables(ts: PairTables, anchors: seq<PairAnchor>) {
    Projects(ts.first, FirstCells(anchors)) && Projects(ts.second, SecondCells(anchors))
  }

  method MakeASCIIPairAnchorFilter(anchors: seq<PairAnchor>) returns (ts: PairTables)
    ensures AnchorTables(ts, anchors)
    ensures forall k :: 0 <= k < |anchors| ==> Knows(ts, anchors[k], k)
  {
    hide Projects;
    BlankProjects();
    ts := PairTables(Blank(), Blank());
    assert FirstCells(anchors[..0]) == SecondCells(anchors[..0]) == [];
    for k := 0 to |anchors|
      invariant AnchorTables(ts, anchors[..k])
    {
      AddProjects(ts.first, FirstCells(anchors[..k]), Cell(anchors[k].first, false));
      AddProjects(ts.second, SecondCells(anchors[..k]), Cell(anchors[k].second, false));
      assert FirstCells(anchors[..k + 1]) == FirstCells(anchors[..k]) + [Cell(anchors[k].first, false)];
      assert SecondCells(anchors[..k + 1]) == SecondCells(anchors[..k]) + [Cell(anchors[k].second, false)];
      ts := PairTables(ts.first.Add(anchors[k].first, k), ts.second.Add(anchors[k].second, k));
    }
    assert anchors[..|anchors|] == anchors;
    forall k | 0 <= k < |anchors| ensures Knows(ts, anchors[k], k) {
      SlotIsAnchor(ts, anchors, anchors[k].first, anchors[k].second, k);
    }
  }

  lemma {:induction false} SlotIsAnchor(ts: PairTables, anchors: seq<PairAnchor>, a: byte, b: byte, k: nat)
    requires AnchorTables(ts, anchors)
    ensures k in ts.first.At(a) * ts.second.At(b) <==> k < |anchors| && anchors[k].first == a && anchors[k].second == b
  {
    hide Projects;
    TableExact(ts.first, FirstCells(anchors), a, k);
    TableExact(ts.second, SecondCells(anchors), b, k);
  }

  /** The anchors whose nibbles the two bytes share. */
  function Admitted(ts: PairTables, first: byte, second: byte): set<nat> {
    ts.first.At(Lower(first)) * ts.second.At(Lower(second))
  }

  predicate FilterAt(ts: PairTables, first: byte, second: byte) {
    Admitted(ts, first, second) != {}
  }

  /** The tables admit a position exactly when some anchor stands there, case bits set. */
  lemma {:induction false} FilterExact(ts: PairTables, anchors: seq<PairAnchor>, h: Bytes, at: nat)
    requires AnchorTables(ts, anchors) && at + 1 < |h|
    ensures FilterAt(ts, h[at], h[at + 1]) <==> exists k :: 0 <= k < |anchors| && AnchorMatches(h, at, anchors[k])
  {
    hide AnchorTables;
    var both := Admitted(ts, h[at], h[at + 1]);
    forall k: nat ensures k in both <==> k < |anchors| && AnchorMatches(h, at, anchors[k]) {
      SlotIsAnchor(ts, anchors, Lower(h[at]), Lower(h[at + 1]), k);
    }
    if both != {} {
      var k :| k in both;
      assert AnchorMatches(h, at, anchors[k]);
    }
    if k: nat :| k < |anchors| && AnchorMatches(h, at, anchors[k]) {
      assert k in both;
    }
  }

  predicate AnchorMatches(h: Bytes, at: nat, anchor: PairAnchor) {
    at + 1 < |h| && Lower(h[at]) == anchor.first && Lower(h[at + 1]) == anchor.second
  }

  lemma {:induction false} KnownAdmitted(ts: PairTables, h: Bytes, at: nat, anchor: PairAnchor, k: nat)
    requires Knows(ts, anchor, k) && AnchorMatches(h, at, anchor)
    ensures FilterAt(ts, h[at], h[at + 1])
  {
    assert k in Admitted(ts, h[at], h[at + 1]);
  }

  /** The next position the tables admit; the end when there is none. */
  method AsciiPairAnchorSkip(h: Bytes, at0: nat, ts: PairTables) returns (at: nat)
    requires at0 <= |h|
    ensures at0 <= at <= |h| && forall r: nat :: at0 <= r < at && r + 1 < |h| ==> !FilterAt(ts, h[r], h[r + 1])
    ensures at < |h| ==> at + 1 < |h| && FilterAt(ts, h[at], h[at + 1])
  {
    at := at0;
    while at + 1 < |h|
      invariant at0 <= at <= |h| && forall r: nat :: at0 <= r < at && r + 1 < |h| ==> !FilterAt(ts, h[r], h[r + 1])
    {
      if FilterAt(ts, h[at], h[at + 1]) {
        return;
      }
      at := at + 1;
    }
    at := |h|;
  }

  // ----- replay

  /** `best` is the lowest nonempty pattern spelled at `q`. */
  ghost predicate LowestStart(p: SearchPlan, h: Bytes, q: nat, best: Option<nat>)
    reads p
  {
    (best.Some? ==> Starts(p, h, q, best.value)) && forall i: nat :: Starts(p, h, q, i) ==> best.Some? && best.value <= i
  }

  method ReplayASCIIAnchorStart(p: SearchPlan, h: Bytes, start: nat) returns (best: Option<nat>)
    requires p.Valid() && !p.mode.exact && AsciiRange(h, 0, |h|) && start <= |h|
    ensures LowestStart(p, h, start, best)
  {
    hide Trace, AllLinked, AllRows, Target, Longest, Automaton.Spelled, WordIndex, TokenAt, LowestPrefix, LowestOnTrace, Starts, TokensAreClasses;
    var state: nat := 0;
    best := None;
    var limit := if start + p.maxUnits > |h| then |h| else start + p.maxUnits;
    ghost var offs: seq<nat>, xs: Word := [start], [];
    StartReplay(p, h, start);
    for at := start to limit
      invariant |xs| == at - start && |offs| == |xs| + 1 && offs[|xs|] == at && offs[0] == start && state < |p.words|
      invariant Trace(p.mode, p.tokens, h, offs, xs) && IsState(p, xs, state) && LowestPrefix(p.toks, xs, best)
    {
      AsciiUnit(p.mode, h, at);
      var token, size := HaystackToken(p, h, at);
      var next := p.Step(state, token);
      var out := p.nodes[next].output;
      var to: nat := at + 1;
      ReplayOne(p, h, offs, xs, state, next, token, to, out, best);
      state, offs, xs := next, offs + [to], xs + [token];
      if out.Output? && out.units == to - start && (best.None? || out.pattern < best.value) {
        best := Some(out.pattern);
      }
    }
    EndReplay(p, h, offs, xs, best);
    TraceBest(p, h, offs, best);
  }

  lemma {:induction false} TraceBest(p: SearchPlan, h: Bytes, offs: seq<nat>, best: Option<nat>)
    requires LowestOnTrace(p, h, offs, best)
    ensures |offs| > 0 && LowestStart(p, h, offs[0], best)
  {
  }

  // ----- the search

  /** In ASCII every start shows the anchor of its pattern. */
  lemma {:induction false} StartShowsPair(p: SearchPlan, h: Bytes, anchors: seq<PairAnchor>, q: nat, i: nat) returns (k: nat)
    requires p.Valid() && !p.mode.exact && AsciiRange(h, 0, |h|) && Starts(p, h, q, i) && Anchored(p, anchors, |p.patterns|)
    ensures k < |anchors| && AnchorMatches(h, q + anchors[k].at, anchors[k])
  {
    hide SearchPlan.Valid, LowerOf, NoAscii, MatchEnd;
    var a := p.Ps()[i];
    assert AnchoredPattern(p, anchors, i);
    if j :| 0 <= j < |a| && NoAscii(p.mode, a[j]) {
      AsciiStart(p.mode, h, q, a, j);
      AsciiMatches(p.mode, a[j], h[q + j]);
      assert false;
    }
    k :| 0 <= k < |anchors| && AnchorFor(p.mode, a, anchors[k]);
    var at := anchors[k].at;
    AsciiStart(p.mode, h, q, a, at);
    AsciiStart(p.mode, h, q, a, at + 1);
    AsciiMatches(p.mode, a[at], h[q + at]);
    AsciiMatches(p.mode, a[at + 1], h[q + at + 1]);
  }

  lemma {:induction false} AsciiMatches(m: Mode, u: CodeUnit, b: byte)
    requires m.Valid() && IsAscii(b) && Same(m, Rune(b), u)
    ensures !NoAscii(m, u)
    ensures forall value :: LowerOf(m, u, value) ==> Lower(b) == value
  {
  }

  /** In ASCII the unit `j` of a match is the byte `j` of it. */
  lemma {:induction false} AsciiStart(m: Mode, h: Bytes, q: nat, a: Pattern, j: nat)
    requires m.Valid() && !m.exact && AsciiRange(h, 0, |h|) && q <= |h| && MatchEnd(m, h, q, a).Some? && j < |a|
    ensures q + j < |h| && IsAscii(h[q + j]) && Same(m, Rune(h[q + j]), a[j])
    decreases |a|
  {
    hide Same;
    assert UnitAt(m, h, q) == Rune(h[q]) && SizeAt(m, h, q) == 1;
    if j > 0 {
      AsciiStart(m, h, q + 1, a[1..], j - 1);
    }
  }

  /** Every start whose pair lies before `at` is no better than `best`. */
  ghost predicate Seen(p: SearchPlan, h: Bytes, anchors: seq<PairAnchor>, at: nat, best: Option<Hit>)
    reads p
  {
    forall q: nat, i: nat, k: nat :: Starts(p, h, q, i) && k < |anchors| && q + anchors[k].at < at && AnchorMatches(h, q + anchors[k].at, anchors[k]) ==>
      best.Some? && Before(best.value, q, i)
  }

  ghost predicate NoWorse(best0: Option<Hit>, best: Option<Hit>) {
    best0.Some? ==> best.Some? && Before(best.value, best0.value.start, best0.value.pattern)
  }

  /** `best` occurs, and no empty pattern is better. */
  ghost predicate Best(p: SearchPlan, h: Bytes, best: Option<Hit>)
    reads p
  {
    && p.mode.Valid() && (best.Some? ==> Occ(p.mode, h, p.Ps(), best.value.start, best.value.pattern))
    && forall i: nat :: i < |p.Ps()| && p.Ps()[i] == [] ==> best.Some? && Before(best.value, 0, i)
  }

  lemma {:induction false} BestImproves(p: SearchPlan, h: Bytes, best0: Option<Hit>, best: Option<Hit>)
    requires Best(p, h, best0) && NoWorse(best0, best)
    requires best.Some? ==> Occ(p.mode, h, p.Ps(), best.value.start, best.value.pattern)
    ensures Best(p, h, best)
  {
    hide Occ;
  }

  lemma {:induction false} AsciiOcc(p: SearchPlan, h: Bytes, q: nat, i: nat)
    requires p.mode.Valid() && AsciiRange(h, 0, |h|) && Starts(p, h, q, i)
    ensures Occ(p.mode, h, p.Ps(), q, i)
  {
    NonContinuationIsBoundary(p.mode, h, 0, q);
  }

  /** Replay the starts that the pairs at this position map to. */
  method ConsiderAnchors(p: SearchPlan, h: Bytes, anchors: seq<PairAnchor>, at: nat, best0: Option<Hit>) returns (best: Option<Hit>)
    requires p.Valid() && !p.mode.exact && AsciiRange(h, 0, |h|) && at + 1 < |h| && Best(p, h, best0)
    ensures Best(p, h, best) && NoWorse(best0, best)
    ensures forall q: nat, i: nat, k: nat :: Starts(p, h, q, i) && k < |anchors| && q + anchors[k].at == at && AnchorMatches(h, at, anchors[k]) ==>
              best.Some? && Before(best.value, q, i)
  {
    hide AllRows, Starts, Best, Occ, AnchorMatches;
    best := best0;
    for k := 0 to |anchors|
      invariant Best(p, h, best) && NoWorse(best0, best)
      invariant forall q: nat, i: nat, j: nat :: Starts(p, h, q, i) && j < k && q + anchors[j].at == at && AnchorMatches(h, at, anchors[j]) ==>
                  best.Some? && Before(best.value, q, i)
    {
      var anchor := anchors[k];
      if !AnchorMatches(h, at, anchor) || at < anchor.at || (best.Some? && at - anchor.at > best.value.start) {
        continue;
      }
      var start: nat := at - anchor.at;
      var found := ReplayASCIIAnchorStart(p, h, start);
      if found.Some? && (best.None? || start < best.value.start || (start == best.value.start && found.value < best.value.pattern)) {
        AsciiOcc(p, h, start, found.value);
        BestImproves(p, h, best, Some(Hit(found.value, start)));
        best := Some(Hit(found.value, start));
      }
    }
  }

  lemma {:induction false} SkipSeen(p: SearchPlan, h: Bytes, anchors: seq<PairAnchor>, ts: PairTables, at: nat, to: nat, best: Option<Hit>)
    requires Seen(p, h, anchors, at, best) && at <= to
    requires forall k :: 0 <= k < |anchors| ==> Knows(ts, anchors[k], k)
    requires forall r: nat :: at <= r < to && r + 1 < |h| ==> !FilterAt(ts, h[r], h[r + 1])
    ensures Seen(p, h, anchors, to, best)
  {
    hide Starts, FilterAt, Knows;
    forall q: nat, i: nat, k: nat | Starts(p, h, q, i) && k < |anchors| && q + anchors[k].at < to && AnchorMatches(h, q + anchors[k].at, anchors[k])
      ensures best.Some? && Before(best.value, q, i)
    {
      if at <= q + anchors[k].at {
        KnownAdmitted(ts, h, q + anchors[k].at, anchors[k], k);
      }
    }
  }

  lemma {:induction false} SeenMore(p: SearchPlan, h: Bytes, anchors: seq<PairAnchor>, at: nat, best0: Option<Hit>, best: Option<Hit>)
    requires Seen(p, h, anchors, at, best0) && NoWorse(best0, best)
    requires forall q: nat, i: nat, k: nat :: Starts(p, h, q, i) && k < |anchors| && q + anchors[k].at == at && AnchorMatches(h, at, anchors[k]) ==>
               best.Some? && Before(best.value, q, i)
    ensures Seen(p, h, anchors, at + 1, best)
  {
    hide Starts, AnchorMatches;
    forall q: nat, i: nat, k: nat | Starts(p, h, q, i) && k < |anchors| && q + anchors[k].at < at + 1 && AnchorMatches(h, q + anchors[k].at, anchors[k])
      ensures best.Some? && Before(best.value, q, i)
    {
      if q + anchors[k].at != at {
        assert best0.Some? && Before(best0.value, q, i);
      }
    }
  }

  /** Nothing better can still show its pair. */
  lemma {:induction false} SeenAll(p: SearchPlan, h: Bytes, anchors: seq<PairAnchor>, maxAt: nat, at: nat, best: Option<Hit>)
    requires p.Valid() && !p.mode.exact && AsciiRange(h, 0, |h|) && Anchored(p, anchors, |p.patterns|)
    requires forall k :: 0 <= k < |anchors| ==> anchors[k].at <= maxAt
    requires Best(p, h, best) && Seen(p, h, anchors, at, best)
    requires at + 1 >= |h| || (best.Some? && at > best.value.start + maxAt)
    ensures best == FindFrom(p.mode, h, p.Ps())
  {
    hide AllRows, Anchored, FindFrom, AnchorMatches, Starts;
    var m, ps := p.mode, p.Ps();
    forall q: nat, i: nat | Occ(m, h, ps, q, i) ensures best.Some? && Before(best.value, q, i) {
      if ps[i] != [] {
        NonemptyStarts(p, h, q, i);
        var k := StartShowsPair(p, h, anchors, q, i);
        PairBounds(h, q + anchors[k].at, anchors[k]);
      }
    }
    assert Answer(m, h, ps, 0, |h|, best);
    WholeAnswer(m, h, ps, |h|);
    AnswerUnique(m, h, ps, 0, |h|, best, FindFrom(m, h, ps));
  }

  lemma {:induction false} PairBounds(h: Bytes, at: nat, anchor: PairAnchor)
    requires AnchorMatches(h, at, anchor)
    ensures at + 1 < |h|
  {
  }

  /** The pair-anchored search of ASCII input. */
  method FindASCIIPairAnchored(p: SearchPlan, h: Bytes, anchors: seq<PairAnchor>, maxAt: nat, ts: PairTables) returns (hit: Option<Hit>)
    requires p.Valid() && !p.mode.exact && AsciiRange(h, 0, |h|) && Anchored(p, anchors, |p.patterns|)
    requires forall k :: 0 <= k < |anchors| ==> anchors[k].at <= maxAt && Knows(ts, anchors[k], k)
    ensures hit == FindFrom(p.mode, h, p.Ps())
  {
    hide AllRows, Starts, Best, Occ, AnchorMatches, FilterAt, Knows, Seen, Anchored, FindFrom, NoWorse;
    hit := if p.empty.Some? then Some(Hit(p.empty.value, 0)) else None;
    EmptyBestHere(p, h, hit);
    NothingSeen(p, h, anchors, hit);
    var at: nat := 0;
    while at + 1 < |h|
      invariant Best(p, h, hit) && Seen(p, h, anchors, at, hit)
      decreases |h| - at
    {
      if hit.Some? && at > hit.value.start + maxAt {
        break;
      }
      var to := AsciiPairAnchorSkip(h, at, ts);
      SkipSeen(p, h, anchors, ts, at, to, hit);
      at := to;
      if at + 1 >= |h| {
        break;
      }
      var next := ConsiderAnchors(p, h, anchors, at, hit);
      SeenMore(p, h, anchors, at, hit, next);
      hit, at := next, at + 1;
    }
    SeenAll(p, h, anchors, maxAt, at, hit);
  }

  lemma {:induction false} EmptyBestHere(p: SearchPlan, h: Bytes, best: Option<Hit>)
    requires p.Valid() && best == (if p.empty.Some? then Some(Hit(p.empty.value, 0)) else None)
    ensures Best(p, h, best)
  {
    hide AllRows, TokensAreClasses;
    if p.empty.Some? {
      assert MatchesAt(p.mode, h, 0, p.Ps(), p.empty.value);
    }
  }

  lemma {:induction false} NothingSeen(p: SearchPlan, h: Bytes, anchors: seq<PairAnchor>, best: Option<Hit>)
    ensures Seen(p, h, anchors, 0, best)
  {
  }
}
