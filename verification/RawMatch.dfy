/** Confirming a nominated start: the plan is replayed from its root at that start, and
    only outputs as wide as the text replayed belong to it. */
module RawMatch {
  import opened Utf8
  import opened Spec
  import opened Automaton
  import opened Lexer
  import opened Links
  import opened Plan
  import opened Search
  import opened RootFilters
  import opened RawMap

  /** `best` is the lowest pattern whose word is a prefix of `xs`. */
  ghost predicate LowestPrefix(toks: seq<Word>, xs: Word, best: Option<nat>) {
    && (best.Some? ==> best.value < |toks| && PrefixOf(toks[best.value], xs))
    && forall i: nat :: i < |toks| && PrefixOf(toks[i], xs) ==> best.Some? && best.value <= i
  }

  predicate PrefixOf(w: Word, xs: Word) {
    0 < |w| <= |xs| && xs[..|w|] == w
  }

  lemma {:induction false} PrefixStep(w: Word, xs: Word, t: nat)
    ensures PrefixOf(w, xs + [t]) <==> PrefixOf(w, xs) || w == xs + [t]
  {
    assert |w| <= |xs| ==> (xs + [t])[..|w|] == xs[..|w|];
    assert (xs + [t])[..|xs| + 1] == xs + [t];
  }

  /** The single output of a state settles the patterns that end with it, when it is as
      wide as the text. */
  function LowerOutput(best: Option<nat>, units: nat, out: Output): Option<nat> {
    if out.Output? && out.units == units && (best.None? || out.pattern < best.value) then Some(out.pattern) else best
  }

  lemma {:induction false} StepLowest(toks: seq<Word>, xs: Word, t: nat, best: Option<nat>, out: Output)
    requires LowestPrefix(toks, xs, best) && IsOutput(toks, xs + [t], out)
    ensures LowestPrefix(toks, xs + [t], LowerOutput(best, |xs| + 1, out))
  {
    var ys := xs + [t];
    forall i: nat | i < |toks| ensures PrefixOf(toks[i], ys) <==> PrefixOf(toks[i], xs) || toks[i] == ys {
      PrefixStep(toks[i], xs, t);
    }
    assert IsSuffix(ys, ys);
    if out.Output? && out.units == |ys| {
      SuffixFull(toks[out.pattern], ys);
    }
  }

  /** A text that a longer word begins with is the word of its state, and has a child. */
  lemma {:induction false} PrefixGoesOn(nodes: seq<Node>, words: seq<Word>, ix: map<Word, nat>, w: Word, xs: Word, state: nat)
    requires IsTrie(nodes, words, ix) && w in ix && xs != [] && |xs| < |w| && w[..|xs|] == xs
    requires state < |words| && [] in ix && words[state] == Longest(ix, xs)
    ensures state != 0 && words[state] == xs && w[|xs|] in nodes[state].edges
  {
    RootWord(words, ix);
    PrefixWord(words, ix, w, |xs|);
    PrefixWord(words, ix, w, |xs| + 1);
    assert w[..|xs| + 1] == xs + [w[|xs|]];
  }

  /** A longer pattern that matches goes on from the text read so far. */
  lemma {:induction false} LongerGoesOn(p: SearchPlan, h: Bytes, offs: seq<nat>, xs: Word, state: nat, i: nat)
    requires p.Valid() && Trace(p.mode, p.tokens, h, offs, xs) && IsState(p, xs, state) && xs != []
    requires i < |p.toks| && |p.toks[i]| > |xs| && MatchEnd(p.mode, h, offs[0], p.Ps()[i]).Some?
    ensures state != 0 && state < |p.nodes| && p.nodes[state].edges.Keys != {}
  {
    hide AllRows, TokensAreClasses, NodeLinked, IsTrie, Longest, Trace, Target;
    var w := p.toks[i];
    TraceLength(p, h, offs, xs);
    WordBegins(p, h, offs, xs, i);
    StartState(p);
    assert w in p.ix;
    PrefixGoesOn(p.nodes, p.words, p.ix, w, xs, state);
  }

  /** A longer pattern that matches begins with the text read so far. */
  lemma {:induction false} WordBegins(p: SearchPlan, h: Bytes, offs: seq<nat>, xs: Word, i: nat)
    requires p.Valid() && Trace(p.mode, p.tokens, h, offs, xs)
    requires i < |p.toks| && |p.toks[i]| > |xs| && MatchEnd(p.mode, h, offs[0], p.Ps()[i]).Some?
    ensures p.toks[i][..|xs|] == xs
  {
    hide AllRows, TokensAreClasses, AllLinked;
    assert p.Ps()[i][0..] == p.Ps()[i];
    MatchInProgress(p.Lex(), h, offs, xs, 0, i, 0);
  }

  /** The match found, with its exact width. */
  ghost predicate BestHere(p: SearchPlan, h: Bytes, start: nat, found: Option<(nat, nat)>)
    reads p
  {
    && p.mode.Valid() && start <= |h|
    && match found
       case None => BestAt(p.mode, h, start, p.Ps()) == None
       case Some((i, width)) =>
         BestAt(p.mode, h, start, p.Ps()) == Some(i) && MatchEnd(p.mode, h, start, p.Ps()[i]) == Some(start + width)
  }

  /** The lowest nonempty pattern that is spelled where the trace starts, ending where the
      trace says. */
  ghost predicate LowestOnTrace(p: SearchPlan, h: Bytes, offs: seq<nat>, best: Option<nat>)
    reads p
  {
    && p.mode.Valid() && |offs| > 0 && offs[0] <= |h|
    && (best.Some? ==>
          && Starts(p, h, offs[0], best.value) && best.value < |p.toks| && |p.toks[best.value]| < |offs|
          && MatchEnd(p.mode, h, offs[0], p.Ps()[best.value]) == Some(offs[|p.toks[best.value]|]))
    && (forall i: nat :: Starts(p, h, offs[0], i) ==> best.Some? && best.value <= i)
  }

  ghost predicate NoEmptyPattern(p: SearchPlan)
    reads p
  {
    forall i :: 0 <= i < |p.Ps()| ==> p.Ps()[i] != []
  }

  lemma {:induction false} PrefixMatches(p: SearchPlan, h: Bytes, offs: seq<nat>, xs: Word, i: nat)
    requires p.Valid() && Trace(p.mode, p.tokens, h, offs, xs)
    requires i < |p.Ps()| && i < |p.toks| && |p.toks[i]| <= |xs|
    ensures Starts(p, h, offs[0], i) <==> PrefixOf(p.toks[i], xs)
    ensures Starts(p, h, offs[0], i) ==> MatchEnd(p.mode, h, offs[0], p.Ps()[i]) == Some(offs[|p.toks[i]|])
  {
    hide AllRows, TokensAreClasses, AllLinked, MatchEnd;
    var ps := p.Ps();
    MatchIsWord(p.Lex(), h, offs, xs, 0, i, 0);
    assert ps[i][0..] == ps[i] && p.toks[i][0..] == p.toks[i] && xs[0..|p.toks[i]|] == xs[..|p.toks[i]|];
    assert Spells(p.mode, p.tokens, ps[i], p.toks[i]);
  }

  lemma {:induction false} PrefixShorter(w: Word, xs: Word)
    requires PrefixOf(w, xs)
    ensures |w| <= |xs|
  {
  }

  lemma {:induction false} StartsMatch(p: SearchPlan, h: Bytes, at: nat, i: nat)
    requires Starts(p, h, at, i)
    ensures p.mode.Valid() && at < |h| && i < |p.Ps()| && MatchEnd(p.mode, h, at, p.Ps()[i]).Some?
  {
  }

  /** No longer pattern can match, so the lowest prefix is the lowest match. */
  lemma {:induction false} Settled(p: SearchPlan, h: Bytes, offs: seq<nat>, xs: Word, best: Option<nat>)
    requires p.Valid() && Trace(p.mode, p.tokens, h, offs, xs) && LowestPrefix(p.toks, xs, best)
    requires best == Some(0) || forall i :: 0 <= i < |p.toks| && |p.toks[i]| > |xs| ==> MatchEnd(p.mode, h, offs[0], p.Ps()[i]) == None
    ensures LowestOnTrace(p, h, offs, best)
  {
    hide AllRows, TokensAreClasses, AllLinked, MatchEnd, PrefixOf, Starts, Trace;
    TraceLength(p, h, offs, xs);
    forall i: nat | Starts(p, h, offs[0], i) ensures best.Some? && best.value <= i {
      StartsMatch(p, h, offs[0], i);
      if best != Some(0) {
        PrefixMatches(p, h, offs, xs, i);
      }
    }
    if best.Some? {
      PrefixShorter(p.toks[best.value], xs);
      PrefixMatches(p, h, offs, xs, best.value);
    }
  }

  /** At the end of the haystack a longer pattern cannot match. */
  lemma {:induction false} NothingAtEnd(p: SearchPlan, h: Bytes, offs: seq<nat>, xs: Word, i: nat)
    requires p.Valid() && Trace(p.mode, p.tokens, h, offs, xs) && offs[|xs|] == |h| && i < |p.toks| && |p.toks[i]| > |xs|
    ensures MatchEnd(p.mode, h, offs[0], p.Ps()[i]) == None
  {
    hide AllRows, TokensAreClasses, AllLinked;
    MatchIsWord(p.Lex(), h, offs, xs, 0, i, 0);
    assert p.Ps()[i][0..] == p.Ps()[i];
  }

  lemma {:induction false} StartReplay(p: SearchPlan, h: Bytes, start: nat)
    requires p.Valid() && start <= |h|
    ensures Trace(p.mode, p.tokens, h, [start], []) && IsState(p, [], 0) && LowestPrefix(p.toks, [], None) && 0 < |p.words|
  {
    hide AllRows, TokensAreClasses, AllLinked;
    StartState(p);
  }

  /** One more unit: the trace, the state and the lowest prefix all move on. */
  lemma {:induction false} ReplayOne(p: SearchPlan, h: Bytes, offs: seq<nat>, xs: Word, state: nat, next: nat, t: nat, to: nat, out: Output, best: Option<nat>)
    requires p.Valid() && |offs| == |xs| + 1 && Trace(p.mode, p.tokens, h, offs, xs)
    requires IsState(p, xs, state) && LowestPrefix(p.toks, xs, best) && Reads(p, h, offs[|xs|], state, next, t, to, out)
    ensures Trace(p.mode, p.tokens, h, offs + [to], xs + [t]) && IsState(p, xs + [t], next)
    ensures LowestPrefix(p.toks, xs + [t], LowerOutput(best, |xs| + 1, out))
    ensures out.Output? ==> out.pattern < |p.toks| && |p.toks[out.pattern]| == out.units
  {
    hide AllRows, TokensAreClasses, AllLinked, LowestPrefix, LowerOutput, IsOutput, Longest, WordIndex;
    TraceExtend(p.mode, p.tokens, h, offs, xs);
    StateAgrees(p, h, offs[|xs|], xs, state);
    assert IsState(p, xs + [t], next);
    StateOutput(p, xs + [t], next);
    StepLowest(p.toks, xs, t, best, out);
    OutputUnits(p.toks, xs + [t], out);
  }

  lemma {:induction false} OutputUnits(toks: seq<Word>, xs: Word, out: Output)
    requires IsOutput(toks, xs, out)
    ensures out.Output? ==> out.pattern < |toks| && |toks[out.pattern]| == out.units
  {
  }

  /** Nothing goes on from here, or nothing could be better. */
  lemma {:induction false} Exhausted(p: SearchPlan, h: Bytes, offs: seq<nat>, xs: Word, state: nat, best: Option<nat>)
    requires p.Valid() && Trace(p.mode, p.tokens, h, offs, xs) && LowestPrefix(p.toks, xs, best)
    requires IsState(p, xs, state) && xs != [] && state < |p.nodes|
    requires best == Some(0) || state == 0 || p.nodes[state].edges.Keys == {}
    ensures LowestOnTrace(p, h, offs, best)
  {
    hide AllRows, TokensAreClasses, AllLinked, LowestPrefix, LowestOnTrace, IsState, Trace;
    TraceLength(p, h, offs, xs);
    if best != Some(0) {
      forall i | 0 <= i < |p.toks| && |p.toks[i]| > |xs| ensures MatchEnd(p.mode, h, offs[0], p.Ps()[i]) == None {
        if MatchEnd(p.mode, h, offs[0], p.Ps()[i]).Some? {
          LongerGoesOn(p, h, offs, xs, state, i);
          assert false;
        }
      }
    }
    Settled(p, h, offs, xs, best);
  }

  lemma {:induction false} TraceLength(p: SearchPlan, h: Bytes, offs: seq<nat>, xs: Word)
    requires Trace(p.mode, p.tokens, h, offs, xs)
    ensures |offs| == |xs| + 1 && offs[0] <= |h|
  {
  }

  /** Every pattern has been read through, or the haystack ends. */
  lemma {:induction false} EndReplay(p: SearchPlan, h: Bytes, offs: seq<nat>, xs: Word, best: Option<nat>)
    requires p.Valid() && Trace(p.mode, p.tokens, h, offs, xs) && LowestPrefix(p.toks, xs, best)
    requires |offs| == |xs| + 1 && (|xs| >= p.maxUnits || offs[|xs|] == |h|)
    ensures LowestOnTrace(p, h, offs, best)
  {
    hide AllRows, TokensAreClasses, AllLinked, LowestPrefix, LowestOnTrace;
    TraceLength(p, h, offs, xs);
    forall i | 0 <= i < |p.toks| && |p.toks[i]| > |xs| ensures MatchEnd(p.mode, h, offs[0], p.Ps()[i]) == None {
      assert Spells(p.mode, p.tokens, p.Ps()[i], p.toks[i]);
      NothingAtEnd(p, h, offs, xs, i);
    }
    Settled(p, h, offs, xs, best);
  }

  lemma {:induction false} Report(p: SearchPlan, h: Bytes, offs: seq<nat>, best: Option<nat>, width: nat)
    requires NoEmptyPattern(p) && LowestOnTrace(p, h, offs, best)
    requires best.Some? ==> best.value < |p.toks| && |p.toks[best.value]| < |offs| && offs[|p.toks[best.value]|] == offs[0] + width
    ensures |offs| > 0 && BestHere(p, h, offs[0], if best.Some? then Some((best.value, width)) else None)
  {
    hide MatchEnd;
    var m, ps, q := p.mode, p.Ps(), offs[0];
    var b := BestAt(m, h, q, ps);
    if b.Some? {
      NonemptyStarts(p, h, q, b.value);
    }
    if best.Some? {
      assert MatchesAt(m, h, q, ps, best.value);
    }
  }

  /** Replay the plan from `start`: the lowest pattern that matches exactly there. */
  method RawByteMatchAt(p: SearchPlan, table: seq<nat>, h: Bytes, start: nat) returns (found: Option<(nat, nat)>)
    requires p.Valid() && Mapped(p, table) && NoEmptyPattern(p) && start <= |h|
    ensures BestHere(p, h, start, found)
  {
    hide Trace, AllLinked, TokensAreClasses, AllRows, Target, Longest, Automaton.Spelled, WordIndex, TokenAt, LowestPrefix,
         Mapped, NoEmptyPattern, BestHere, LowestOnTrace;
    var state: nat, at, units: nat := 0, start, 0;
    var best: Option<nat>, bestWidth: nat := None, 0;
    ghost var offs: seq<nat>, xs: Word := [start], [];
    StartReplay(p, h, start);
    while units < p.maxUnits && at < |h|
      invariant start <= at <= |h| && |xs| == units && |offs| == units + 1 && offs[units] == at && offs[0] == start
      invariant Trace(p.mode, p.tokens, h, offs, xs) && IsState(p, xs, state) && LowestPrefix(p.toks, xs, best)
      invariant state < |p.words|
      invariant best.Some? ==> best.value < |p.toks| && |p.toks[best.value]| <= units && offs[|p.toks[best.value]|] == start + bestWidth
      decreases |h| - at
    {
      var next, size := RawOrDecodedAdvance(p, table, h, at, state);
      ghost var t := TokenAt(p, h, at);
      var out := p.nodes[next].output;
      ReplayOne(p, h, offs, xs, state, next, t, at + size, out, best);
      state, at, units := next, at + size, units + 1;
      offs, xs := offs + [at], xs + [t];
      if out.Output? && out.units == units {
        if best.None? || out.pattern < best.value {
          best, bestWidth := Some(out.pattern), at - start;
        }
        if best == Some(0) || p.nodes[state].edges.Keys == {} {
          Exhausted(p, h, offs, xs, state, best);
          Report(p, h, offs, best, bestWidth);
          return Some((best.value, bestWidth));
        }
      }
      if state == 0 {
        Exhausted(p, h, offs, xs, state, best);
        Report(p, h, offs, best, bestWidth);
        return if best.Some? then Some((best.value, bestWidth)) else None;
      }
    }
    EndReplay(p, h, offs, xs, best);
    Report(p, h, offs, best, bestWidth);
    return if best.Some? then Some((best.value, bestWidth)) else None;
  }
}
