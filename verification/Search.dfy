/** The decoded and the exact scan of a compiled plan: every token of the haystack is
    read once, and the answer is what Find specifies. */
module Search {
  import opened Utf8
  import opened Spec
  import opened Automaton
  import opened Lexer
  import opened Scan
  import opened Links
  import opened Plan

  const INLINE_STARTS := 256

  // ----- the state of a scan

  /** The tokens `xs` have been read, at the offsets `offs`, and `best` is the best
      occurrence that has ended. */
  ghost predicate Scanned(p: SearchPlan, s: Bytes, offs: seq<nat>, xs: Word, best: Best)
    reads p
  {
    && Trace(p.mode, p.tokens, s, offs, xs)
    && BestSoFar(p.toks, xs, best)
  }

  ghost function TokenAt(p: SearchPlan, s: Bytes, at: nat): nat
    requires at < |s|
    reads p
  {
    p.tokens.Of(UnitAt(p.mode, s, at))
  }

  /** `state` is as good as the state of the whole text read so far: it leads to the
      same place on the next token. */
  ghost predicate Agrees(p: SearchPlan, s: Bytes, at: nat, xs: Word, state: nat)
    reads p
  {
    && WordIndex(p.words, p.ix) && state < |p.words|
    && (at < |s| ==> p.words[Target(p.words, p.ix, state, TokenAt(p, s, at))] == Longest(p.ix, xs + [TokenAt(p, s, at)]))
  }

  ghost predicate IsState(p: SearchPlan, xs: Word, state: nat)
    reads p
  {
    WordIndex(p.words, p.ix) && state < |p.words| && p.words[state] == Longest(p.ix, xs)
  }

  lemma {:induction false} StateAgrees(p: SearchPlan, s: Bytes, at: nat, xs: Word, state: nat)
    requires p.Valid() && IsState(p, xs, state)
    ensures Agrees(p, s, at, xs, state)
  {
    if at < |s| {
      LongestStep(p.words, p.ix, xs, TokenAt(p, s, at));
    }
  }

  lemma {:induction false} StartState(p: SearchPlan)
    requires p.Valid()
    ensures |p.words| > 0 && [] in p.ix && IsState(p, [], 0)
  {
    RootWord(p.words, p.ix);
  }

  /** The output of the state of a text is the output of the text. */
  lemma {:induction false} StateOutput(p: SearchPlan, xs: Word, state: nat)
    requires p.Valid() && IsState(p, xs, state)
    ensures IsOutput(p.toks, xs, p.nodes[state].output)
  {
    assert NodeLinked(p.nodes, p.words, p.ix, p.toks, state);
    OutputOfText(p.toks, p.ix, xs, p.nodes[state].output);
  }

  /** One step of a scan: the unit at `at` has token `t` and ends at `to`, and leads
      from `state` to `next`, whose output is `out`. */
  ghost predicate Reads(p: SearchPlan, s: Bytes, at: nat, state: nat, next: nat, t: nat, to: nat, out: Output)
    reads p
  {
    && WordIndex(p.words, p.ix) && at < |s| && t == TokenAt(p, s, at) && to == at + SizeAt(p.mode, s, at)
    && state < |p.words| && next == Target(p.words, p.ix, state, t) && next < |p.nodes| && out == p.nodes[next].output
  }

  lemma {:induction false} ReadOne(p: SearchPlan, s: Bytes, offs: seq<nat>, xs: Word, best: Best, state: nat, next: nat, t: nat, to: nat, out: Output)
    requires |offs| == |xs| + 1 && p.Valid() && Scanned(p, s, offs, xs, best)
    requires Agrees(p, s, offs[|xs|], xs, state) && Reads(p, s, offs[|xs|], state, next, t, to, out)
    ensures IsState(p, xs + [t], next)
    ensures Scanned(p, s, offs + [to], xs + [t], Improve(best, |xs| + 1, out))
  {
    hide WordIndex, IsTrie, TokensAreClasses, IsOutput, BestSoFar, AllRows, Longest;
    TraceExtend(p.mode, p.tokens, s, offs, xs);
    assert IsState(p, xs + [t], next);
    StateOutput(p, xs + [t], next);
    StepBest(p.toks, xs, t, best, out);
  }

  /** A scan that may stop has found what Find specifies. */
  lemma {:induction false} Finished(p: SearchPlan, s: Bytes, offs: seq<nat>, xs: Word, best: Best)
    requires p.Valid() && Scanned(p, s, offs, xs, best) && offs[0] == 0
    requires MayStop(s, offs, xs, best, p.maxUnits)
    ensures best.Best? ==> best.unit < |offs|
    ensures FindFrom(p.mode, s, p.Ps()) == HitOf(best, offs)
  {
    hide Trace, BestSoFar, MayStop, FindFrom, AllLinked, TokensAreClasses, AllRows;
    assert LongestPattern(p.toks, p.maxUnits);
    ScanIsFind(p.Lex(), s, offs, xs, best, p.maxUnits);
  }

  /** The candidate an empty pattern contributes before anything is read. */
  function EmptyBest(empty: Option<nat>): Best {
    match empty
    case None => Nothing
    case Some(i) => Best(0, i)
  }

  lemma {:induction false} Started(p: SearchPlan, s: Bytes, from: nat)
    requires p.Valid() && from <= |s|
    ensures Scanned(p, s, [from], [], EmptyBest(p.empty))
  {
    hide AllLinked, TokensAreClasses, AllRows, BestSoFar;
    forall i | 0 <= i < |p.toks| ensures p.toks[i] == [] <==> p.Ps()[i] == [] {
      assert Spells(p.mode, p.tokens, p.Ps()[i], p.toks[i]);
    }
    if p.empty.Some? {
      assert [] !in p.toks[..p.empty.value];
    }
    StartBest(p.toks, EmptyBest(p.empty));
  }

  /** The token of the next unit and its source width: an ASCII byte from its table, a
      decoded rune or an opaque byte from theirs. An exact plan reads bytes. */
  method HaystackToken(p: SearchPlan, s: Bytes, at: nat) returns (token: nat, size: nat)
    requires at < |s| && p.Valid()
    ensures token == TokenAt(p, s, at) && size == SizeAt(p.mode, s, at) && token < p.stride
  {
    hide AllLinked, AllRows;
    var value := s[at];
    if p.mode.exact {
      return if value in p.tokens.bytes then p.tokens.bytes[value] else 0, 1;
    }
    if IsAscii(value) {
      return p.ascii[value], 1;
    }
    var n := FormLen(s, at);
    if n == 0 {
      return if value in p.tokens.bytes then p.tokens.bytes[value] else 0, 1;
    }
    var r := FormRune(s, at);
    return if r in p.tokens.runes then p.tokens.runes[r] else 0, n;
  }

  /** What the token is for: it is that of a pattern unit exactly when the source's unit
      matches that unit, and zero only when it matches none. */
  lemma {:induction false} TokenDecides(p: SearchPlan, s: Bytes, at: nat, i: nat, j: nat)
    requires p.Valid() && at < |s| && i < |p.Ps()| && j < |p.Ps()[i]|
    ensures i < |p.toks| && j < |p.toks[i]| && p.toks[i][j] != 0
    ensures TokenAt(p, s, at) == p.toks[i][j] <==> Same(p.mode, UnitAt(p.mode, s, at), p.Ps()[i][j])
  {
    hide AllLinked, AllRows, TokensAreClasses, Same, UnitAt;
    assert Spells(p.mode, p.tokens, p.Ps()[i], p.toks[i]);
  }

  /** Read the next unit: the new state, its output and where the unit ends. */
  method ReadUnit(p: SearchPlan, s: Bytes, at: nat, state: nat, ghost best: Best, ghost offs0: seq<nat>, ghost xs0: Word)
    returns (next: nat, out: Output, to: nat, ghost offs: seq<nat>, ghost xs: Word)
    requires p.Valid() && at < |s| && state < |p.words| && |offs0| == |xs0| + 1 && offs0[|xs0|] == at
    requires Scanned(p, s, offs0, xs0, best) && Agrees(p, s, at, xs0, state)
    ensures next < |p.words| && to == at + SizeAt(p.mode, s, at) <= |s|
    ensures |xs| == |xs0| + 1 && offs == offs0 + [to]
    ensures IsState(p, xs, next) && out == p.nodes[next].output
    ensures Agrees(p, s, to, xs, next) && Scanned(p, s, offs, xs, Improve(best, |xs|, out))
  {
    hide Trace, BestSoFar, AllLinked, TokensAreClasses, AllRows, Target, Longest, Automaton.Spelled, WordIndex, TokenAt, Improve;
    var token, size := HaystackToken(p, s, at);
    next := p.Step(state, token);
    out := p.nodes[next].output;
    to := at + size;
    ReadOne(p, s, offs0, xs0, best, state, next, token, to, out);
    offs, xs := offs0 + [to], xs0 + [token];
    StateAgrees(p, s, to, xs, next);
  }

  /** The exact scan: every byte is a unit, so unit and byte offsets agree. */
  method FindExactBytes(p: SearchPlan, s: Bytes) returns (hit: Option<Hit>)
    requires p.Valid() && p.mode.exact
    ensures hit == FindFrom(p.mode, s, p.Ps())
  {
    hide Trace, BestSoFar, AllLinked, TokensAreClasses, AllRows, FindFrom, Target, Longest, Automaton.Spelled, WordIndex, Scanned, Agrees, IsState;
    var state: nat, best := 0, EmptyBest(p.empty);
    ghost var offs: seq<nat>, xs: Word := [0], [];
    Started(p, s, 0);
    StartState(p);
    StateAgrees(p, s, 0, [], 0);
    for at := 0 to |s|
      invariant |xs| == at && |offs| == at + 1 && state < |p.words|
      invariant forall u :: 0 <= u <= at ==> offs[u] == u
      invariant Scanned(p, s, offs, xs, best) && Agrees(p, s, at, xs, state)
    {
      var out, to;
      state, out, to, offs, xs := ReadUnit(p, s, at, state, best, offs, xs);
      best := Improve(best, at + 1, out);
      if best.Best? && at + 1 >= best.unit + p.maxUnits {
        Finished(p, s, offs, xs, best);
        return Some(Hit(best.pattern, best.unit));
      }
    }
    Finished(p, s, offs, xs, best);
    hit := if best.Best? then Some(Hit(best.pattern, best.unit)) else None;
  }

  // ----- the offset ring

  lemma {:induction false} NoMultipleBetween(n: nat, k: int)
    ensures k <= 0 ==> n * k <= 0
    ensures k >= 1 ==> n * k >= n
  {
  }

  lemma {:induction false} ModApart(u: nat, v: nat, n: nat)
    requires u < v < u + n
    ensures u % n != v % n
  {
    var k := v / n - u / n;
    NoMultipleBetween(n, k);
    assert n * k == n * (v / n) - n * (u / n);
  }

  /** The ring holds the offsets of the units after `unit - maxUnits` up to `last`. */
  ghost predicate RingHolds(ring: seq<nat>, offs: seq<nat>, unit: nat, last: nat, maxUnits: nat) {
    && |ring| > 0 && maxUnits <= |ring| && last <= |offs|
    && forall v :: 0 <= v < last && unit < v + maxUnits ==> ring[v % |ring|] == offs[v]
  }

  lemma {:induction false} RingEmpty(ring: seq<nat>, offs: seq<nat>, maxUnits: nat)
    requires |ring| > 0 && maxUnits <= |ring|
    ensures RingHolds(ring, offs, 0, 0, maxUnits)
  {
  }

  lemma {:induction false} RingPut(ring: seq<nat>, offs: seq<nat>, unit: nat, maxUnits: nat, at: nat)
    requires RingHolds(ring, offs, unit, unit, maxUnits) && unit < |offs| && offs[unit] == at
    ensures RingHolds(ring[unit % |ring| := at], offs, unit, unit + 1, maxUnits)
  {
    var n := |ring|;
    forall v | 0 <= v < unit && unit < v + maxUnits ensures v % n != unit % n {
      ModApart(v, unit, n);
    }
  }

  lemma {:induction false} RingExtends(ring: seq<nat>, offs: seq<nat>, unit: nat, maxUnits: nat, to: nat)
    requires RingHolds(ring, offs, unit, unit + 1, maxUnits)
    ensures RingHolds(ring, offs + [to], unit, unit + 1, maxUnits)
    ensures RingHolds(ring, offs + [to], unit + 1, unit + 1, maxUnits)
  {
  }

  /** Record the offsets of the last units of a prefix in which every unit is one byte. */
  method Refill(starts: array<nat>, unit: nat, maxUnits: nat, ghost offs: seq<nat>)
    requires starts.Length > 0 && maxUnits <= starts.Length
    requires |offs| == unit + 1 && forall u :: 0 <= u <= unit ==> offs[u] == u
    modifies starts
    ensures RingHolds(starts[..], offs, unit, unit, maxUnits)
  {
    var first: nat := if unit + 1 > maxUnits then unit + 1 - maxUnits else 0;
    var n := starts.Length;
    var prior := first;
    while prior < unit
      invariant forall v :: first <= v < prior ==> starts[v % n] == v
    {
      forall v | first <= v < prior ensures v % n != prior % n {
        ModApart(v, prior, n);
      }
      starts[prior % n] := prior;
      prior := prior + 1;
    }
  }

  lemma {:induction false} BestOnTrace(p: SearchPlan, s: Bytes, offs: seq<nat>, xs: Word, best: Best)
    requires Scanned(p, s, offs, xs, best)
    ensures best.Best? ==> best.unit < |offs|
  {
  }

  /** The start of a reported output is still in the ring. */
  lemma {:induction false} OutputInRing(p: SearchPlan, xs: Word, ring: seq<nat>, offs: seq<nat>, unit: nat, out: Output, state: nat)
    requires p.Valid() && IsState(p, xs, state) && |xs| == unit + 1 && out == p.nodes[state].output && out.Output?
    requires RingHolds(ring, offs, unit, unit + 1, p.maxUnits)
    ensures 0 < out.units <= unit + 1 && unit + 1 - out.units < |offs|
    ensures ring[(unit + 1 - out.units) % |ring|] == offs[unit + 1 - out.units]
  {
    StateOutput(p, xs, state);
    assert Spells(p.mode, p.tokens, p.Ps()[out.pattern], p.toks[out.pattern]);
  }

  /** The decoded scan from the first non-ASCII byte on. Unit positions are turned back
      into source offsets through a ring of at least `maxUnits` recent offsets. */
  method FindNonASCIIDecoded(p: SearchPlan, s: Bytes, at0: nat, state0: nat, best0: Best, starts: array<nat>,
                             ghost xs0: Word, ghost offs0: seq<nat>) returns (hit: Option<Hit>)
    requires p.Valid() && state0 < |p.words| && |xs0| == at0 && |offs0| == at0 + 1 && forall u :: 0 <= u <= at0 ==> offs0[u] == u
    requires Scanned(p, s, offs0, xs0, best0) && Agrees(p, s, at0, xs0, state0) && at0 <= |s|
    requires starts.Length > 0 && p.maxUnits <= starts.Length
    modifies starts
    ensures hit == FindFrom(p.mode, s, p.Ps())
  {
    hide Trace, BestSoFar, AllLinked, TokensAreClasses, AllRows, FindFrom, Target, Longest, Automaton.Spelled, WordIndex,
         RingHolds, IsState, Agrees, Scanned, SearchPlan.Valid;
    var at: nat, unit: nat, state: nat, best := at0, at0, state0, best0;
    var bestStart: nat := if best.Best? then best.unit else 0;
    ghost var offs, xs := offs0, xs0;
    Refill(starts, unit, p.maxUnits, offs);
    BestOnTrace(p, s, offs, xs, best);
    while at < |s|
      invariant |xs| == unit && |offs| == unit + 1 && offs[0] == 0 && offs[unit] == at <= |s| && state < |p.words|
      invariant Scanned(p, s, offs, xs, best) && Agrees(p, s, at, xs, state)
      invariant best.Best? ==> best.unit < |offs| && bestStart == offs[best.unit]
      invariant RingHolds(starts[..], offs, unit, unit, p.maxUnits)
      decreases |s| - at
    {
      ghost var ring := starts[..];
      starts[unit % starts.Length] := at;
      RingPut(ring, offs, unit, p.maxUnits, at);
      assert starts[..] == ring[unit % |ring| := at];
      var out, to;
      state, out, to, offs, xs := ReadUnit(p, s, at, state, best, offs, xs);
      RingExtends(starts[..], offs[..unit + 1], unit, p.maxUnits, to);
      if out.Output? {
        OutputInRing(p, xs, starts[..], offs, unit, out, state);
        var start := starts[(unit + 1 - out.units) % starts.Length];
        if best.Nothing? || unit + 1 - out.units < best.unit || (unit + 1 - out.units == best.unit && out.pattern < best.pattern) {
          best, bestStart := Best(unit + 1 - out.units, out.pattern), start;
        }
      }
      if best.Best? && unit + 1 >= best.unit + p.maxUnits {
        Finished(p, s, offs, xs, best);
        return Some(Hit(best.pattern, bestStart));
      }
      at, unit := to, unit + 1;
    }
    Finished(p, s, offs, xs, best);
    hit := if best.Best? then Some(Hit(best.pattern, bestStart)) else None;
  }
}
