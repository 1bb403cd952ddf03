/** The leftmost search over tokens that every route replays. A scan keeps the best
    occurrence among those that have ended; once no earlier start can still be
    completed, that occurrence is the answer Find specifies. */
module Scan {
  import opened Utf8
  import opened Spec
  import opened Automaton
  import opened Lexer

  /** An occurrence of a pattern, by token position. */
  datatype Best = Nothing | Best(unit: nat, pattern: nat)

  ghost predicate Occurs(toks: seq<Word>, xs: Word, u: nat, i: nat) {
    i < |toks| && u + |toks[i]| <= |xs| && xs[u..u + |toks[i]|] == toks[i]
  }

  predicate Precedes(u: nat, i: nat, v: nat, j: nat) {
    u < v || (u == v && i <= j)
  }

  /** `best` is the leftmost, lowest occurrence that ends within `xs`. */
  ghost predicate BestSoFar(toks: seq<Word>, xs: Word, best: Best) {
    && (best.Best? ==> Occurs(toks, xs, best.unit, best.pattern))
    && (forall u: nat, i: nat :: Occurs(toks, xs, u, i) ==> best.Best? && Precedes(best.unit, best.pattern, u, i))
  }

  /** The better of `best` and the output of a state reached at `end`. */
  function Improve(best: Best, end: nat, out: Output): Best {
    if out.Output? && out.units <= end && (best.Nothing? || end - out.units < best.unit ||
         (end - out.units == best.unit && out.pattern < best.pattern))
    then Best(end - out.units, out.pattern) else best
  }

  /** Before anything is read only empty patterns occur. */
  lemma {:induction false} StartBest(toks: seq<Word>, best: Best)
    requires best.Nothing? ==> [] !in toks
    requires best.Best? ==> best.unit == 0 && best.pattern < |toks| && toks[best.pattern] == [] && [] !in toks[..best.pattern]
    ensures BestSoFar(toks, [], best)
  {
    assert best.Best? ==> forall i :: 0 <= i < best.pattern ==> toks[i] == toks[..best.pattern][i];
    forall u: nat, i: nat | Occurs(toks, [], u, i) ensures best.Best? && Precedes(best.unit, best.pattern, u, i) {
      assert toks[i] == [];
    }
  }

  lemma {:induction false} ImproveOccurs(toks: seq<Word>, xs: Word, t: nat, best: Best, out: Output)
    requires best.Best? ==> Occurs(toks, xs, best.unit, best.pattern)
    requires IsOutput(toks, xs + [t], out)
    ensures var next := Improve(best, |xs| + 1, out); next.Best? ==> Occurs(toks, xs + [t], next.unit, next.pattern)
  {
    var ys := xs + [t];
    if out.Output? {
      assert ys[|ys| - out.units..] == ys[|ys| - out.units..|ys| - out.units + |toks[out.pattern]|];
    }
    if best.Best? {
      var n := best.unit + |toks[best.pattern]|;
      assert ys[best.unit..n] == xs[best.unit..n];
    }
  }

  lemma {:induction false} ImproveIsNoWorse(best: Best, end: nat, out: Output)
    ensures var next := Improve(best, end, out);
            && (best.Best? ==> next.Best? && Precedes(next.unit, next.pattern, best.unit, best.pattern))
            && (out.Output? && out.units <= end ==> next.Best? && Precedes(next.unit, next.pattern, end - out.units, out.pattern))
  {
  }

  /** An occurrence that ended before is an occurrence still. */
  lemma {:induction false} OldOccurrence(toks: seq<Word>, xs: Word, t: nat, u: nat, i: nat)
    requires Occurs(toks, xs + [t], u, i) && u + |toks[i]| <= |xs|
    ensures Occurs(toks, xs, u, i)
  {
    assert xs[u..u + |toks[i]|] == (xs + [t])[u..u + |toks[i]|];
  }

  /** An occurrence that ends now is no better than the output of the state. */
  lemma {:induction false} NewOccurrence(toks: seq<Word>, ys: Word, u: nat, i: nat, out: Output)
    requires Occurs(toks, ys, u, i) && toks[i] != [] && u + |toks[i]| == |ys| && IsOutput(toks, ys, out)
    ensures out.Output? && out.units <= |ys| && Precedes(|ys| - out.units, out.pattern, u, i)
  {
    assert ys[|ys| - |toks[i]|..] == ys[u..u + |toks[i]|];
    assert IsSuffix(toks[i], ys);
  }

  /** Reading one token: the single output of the new state is all that can matter. */
  lemma {:induction false} StepBest(toks: seq<Word>, xs: Word, t: nat, best: Best, out: Output)
    requires BestSoFar(toks, xs, best) && IsOutput(toks, xs + [t], out)
    ensures BestSoFar(toks, xs + [t], Improve(best, |xs| + 1, out))
  {
    hide IsOutput, Improve;
    var ys := xs + [t];
    var next := Improve(best, |ys|, out);
    ImproveOccurs(toks, xs, t, best, out);
    ImproveIsNoWorse(best, |ys|, out);
    forall u: nat, i: nat | Occurs(toks, ys, u, i) ensures next.Best? && Precedes(next.unit, next.pattern, u, i) {
      if u + |toks[i]| <= |xs| {
        OldOccurrence(toks, xs, t, u, i);
      } else if toks[i] == [] {
        assert xs[0..0] == [];
        assert Occurs(toks, xs, 0, i);
      } else {
        NewOccurrence(toks, ys, u, i, out);
      }
    }
  }

  lemma {:induction false} OutputIsOccurrence(toks: seq<Word>, xs: Word, out: Output)
    requires IsOutput(toks, xs, out) && out.Output?
    ensures 0 < out.units <= |xs| && out.pattern < |toks| && |toks[out.pattern]| == out.units
    ensures Occurs(toks, xs, |xs| - out.units, out.pattern)
  {
    var u := |xs| - out.units;
    assert xs[u..u + |toks[out.pattern]|] == xs[|xs| - out.units..];
  }

  function HitOf(best: Best, offs: seq<nat>): Option<Hit>
    requires best.Best? ==> best.unit < |offs|
  {
    if best.Nothing? then None else Some(Hit(best.pattern, offs[best.unit]))
  }

  ghost predicate LongestPattern(toks: seq<Word>, maxUnits: nat) {
    forall i :: 0 <= i < |toks| ==> |toks[i]| <= maxUnits
  }

  /** A scan may stop at the end of the text, or as soon as everything that starts
      no later than its best occurrence must have ended. */
  ghost predicate MayStop(s: Bytes, offs: seq<nat>, xs: Word, best: Best, maxUnits: nat)
    requires |offs| == |xs| + 1
  {
    offs[|xs|] == |s| || (best.Best? && |xs| >= best.unit + maxUnits)
  }

  lemma {:induction false} OccursIsMatch(lex: Lex, s: Bytes, offs: seq<nat>, xs: Word, u: nat, i: nat)
    requires lex.Faithful() && Trace(lex.m, lex.tk, s, offs, xs) && u <= |xs| && i < |lex.ps|
    requires u + |lex.toks[i]| <= |xs| || offs[|xs|] == |s|
    ensures MatchesAt(lex.m, s, offs[u], lex.ps, i) <==> Occurs(lex.toks, xs, u, i)
  {
    MatchIsWord(lex, s, offs, xs, u, i, 0);
    assert lex.ps[i][0..] == lex.ps[i] && lex.toks[i][0..] == lex.toks[i];
  }

  /** The answer of a scan that may stop is the answer of Find from its start. */
  lemma {:induction false} ScanIsFind(lex: Lex, s: Bytes, offs: seq<nat>, xs: Word, best: Best, maxUnits: nat)
    requires lex.Faithful() && Trace(lex.m, lex.tk, s, offs, xs)
    requires BestSoFar(lex.toks, xs, best) && LongestPattern(lex.toks, maxUnits)
    requires MayStop(s, offs, xs, best, maxUnits)
    ensures best.Best? ==> best.unit < |offs|
    ensures FindFrom(lex.m, s, lex.ps, offs[0]) == HitOf(best, offs)
  {
    var m, ps := lex.m, lex.ps;
    var last := if best.Best? then best.unit else |xs|;
    forall u: nat, i: nat | u <= last && i < |ps| ensures MatchesAt(m, s, offs[u], ps, i) <==> Occurs(lex.toks, xs, u, i) {
      OccursIsMatch(lex, s, offs, xs, u, i);
    }
    var end := offs[last];
    TraceReaches(m, lex.tk, s, offs, xs, 0, last);
    forall q | offs[0] <= q < end && Reaches(m, s, offs[0], q) ensures BestAt(m, s, q, ps) == None {
      TraceReaches(m, lex.tk, s, offs, xs, last, |xs|);
      var v := OnTrace(m, lex.tk, s, offs, xs, 0, q);
      if last <= v {
        TraceReaches(m, lex.tk, s, offs, xs, last, v);
        assert false;
      }
      NoneAt(lex, s, offs, xs, best, v);
    }
    if best.Best? {
      BestHere(lex, s, offs, xs, best);
      FindIs(m, s, ps, offs[0], Hit(best.pattern, end));
    } else {
      NoneAt(lex, s, offs, xs, best, |xs|);
      FindIsNone(m, s, ps, offs[0]);
    }
  }

  lemma {:induction false} NoneAt(lex: Lex, s: Bytes, offs: seq<nat>, xs: Word, best: Best, v: nat)
    requires lex.Faithful() && Trace(lex.m, lex.tk, s, offs, xs) && v <= |xs|
    requires BestSoFar(lex.toks, xs, best) && (best.Best? ==> v < best.unit)
    requires forall i: nat :: i < |lex.ps| ==> (MatchesAt(lex.m, s, offs[v], lex.ps, i) <==> Occurs(lex.toks, xs, v, i))
    ensures BestAt(lex.m, s, offs[v], lex.ps) == None
  {
    var b := BestAt(lex.m, s, offs[v], lex.ps);
    if b.Some? {
      assert false;
    }
  }

  lemma {:induction false} BestHere(lex: Lex, s: Bytes, offs: seq<nat>, xs: Word, best: Best)
    requires lex.Faithful() && Trace(lex.m, lex.tk, s, offs, xs)
    requires best.Best? && BestSoFar(lex.toks, xs, best) && best.unit <= |xs|
    requires forall i: nat :: i < |lex.ps| ==>
               (MatchesAt(lex.m, s, offs[best.unit], lex.ps, i) <==> Occurs(lex.toks, xs, best.unit, i))
    ensures BestAt(lex.m, s, offs[best.unit], lex.ps) == Some(best.pattern)
  {
    var b := BestAt(lex.m, s, offs[best.unit], lex.ps);
    assert MatchesAt(lex.m, s, offs[best.unit], lex.ps, best.pattern);
    assert Occurs(lex.toks, xs, best.unit, b.value);
  }
}
