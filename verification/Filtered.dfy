/** The filtered scan. From the root it jumps over every position a conservative byte
    filter rejects, possibly into the middle of a rune, and starts its history anew;
    it answers as soon as no pattern is in progress. */
module Filtered {
  import opened Utf8
  import opened Spec
  import opened Automaton
  import opened Lexer
  import opened Scan
  import opened Answers
  import opened Links
  import opened Plan
  import opened Search
  import opened Decoded
  import opened RootFilters
  import opened TripleFilters
  import opened RawMap
  import Shufti

  /** Some pattern unit is an opaque continuation byte. */
  predicate OpaqueContinuation(p: SearchPlan)
    reads p
  {
    exists b: byte :: IsContinuation(b) && p.tokens.Of(Raw(b)) != 0
  }

  /** The guard asks of the patterns whether one of them has an opaque continuation byte. */
  lemma {:induction false} OpaqueExactly(p: SearchPlan)
    requires p.Valid() && p.NoSpareToken()
    ensures OpaqueContinuation(p) <==>
              exists i, j :: 0 <= i < |p.Ps()| && 0 <= j < |p.Ps()[i]| && p.Ps()[i][j].Raw? && IsContinuation(p.Ps()[i][j].raw)
  {
    hide AllLinked, AllRows, TokensAreClasses;
    if i, j :| 0 <= i < |p.Ps()| && 0 <= j < |p.Ps()[i]| && p.Ps()[i][j].Raw? && IsContinuation(p.Ps()[i][j].raw) {
      assert Spells(p.mode, p.tokens, p.Ps()[i], p.toks[i]);
      assert p.tokens.Of(Raw(p.Ps()[i][j].raw)) == p.toks[i][j];
    }
    if b: byte :| IsContinuation(b) && p.tokens.Of(Raw(b)) != 0 {
      assert p.Demanded(Raw(b));
    }
  }

  /** A nonempty pattern can only start at a byte that is not a continuation byte, and
      such a byte is a unit boundary from wherever decoding began. */
  lemma {:induction false} StartIsBoundary(p: SearchPlan, h: Bytes, q: nat, i: nat, from: nat)
    requires p.Valid() && !OpaqueContinuation(p) && Starts(p, h, q, i) && from <= q
    ensures !IsContinuation(h[q]) && Reaches(p.mode, h, from, q)
  {
    hide AllLinked, AllRows, TokensAreClasses;
    StartToken(p, h, q, i);
    ContinuationUnit(p.mode, h, q);
    NonContinuationIsBoundary(p.mode, h, from, q);
  }

  /** A continuation byte on its own is an opaque unit. */
  lemma {:induction false} ContinuationUnit(m: Mode, h: Bytes, q: nat)
    requires q < |h|
    ensures IsContinuation(h[q]) ==> UnitAt(m, h, q) == Raw(h[q])
  {
  }

  lemma {:induction false} OccStarts(p: SearchPlan, h: Bytes, q: nat, i: nat)
    requires p.Valid() && !OpaqueContinuation(p) && i < |p.Ps()| && p.Ps()[i] != [] && q <= |h|
    ensures Occ(p.mode, h, p.Ps(), q, i) <==> Starts(p, h, q, i)
  {
    hide AllLinked, AllRows, TokensAreClasses;
    if Starts(p, h, q, i) {
      StartIsBoundary(p, h, q, i, 0);
    }
  }

  /** Everything that starts before `b`, or has ended by `at`, is no better than `best`. */
  ghost predicate Accounted(p: SearchPlan, h: Bytes, b: nat, at: nat, best: Option<Hit>)
    reads p
  {
    && p.mode.Valid()
    && forall q: nat, i: nat :: Occ(p.mode, h, p.Ps(), q, i) && (q < b || End(p.mode, h, p.Ps(), q, i) <= at) ==>
         best.Some? && Before(best.value, q, i)
  }

  /** `best` is an occurrence. */
  ghost predicate Found(p: SearchPlan, h: Bytes, best: Option<Hit>)
    reads p
  {
    p.mode.Valid() && (best.Some? ==> Occ(p.mode, h, p.Ps(), best.value.start, best.value.pattern))
  }

  /** `best` is no worse than the best occurrence of the current trace. */
  ghost predicate NoWorse(best: Option<Hit>, local: Best, offs: seq<nat>) {
    local.Best? ==> local.unit < |offs| && best.Some? && Before(best.value, offs[local.unit], local.pattern)
  }

  /** At the root no word continues the text read so far. */
  lemma {:induction false} RootForgets(p: SearchPlan, xs: Word, w: Word, u: nat)
    requires p.Valid() && IsState(p, xs, 0) && w in p.ix && u < |xs| && |xs| - u <= |w|
    ensures xs[u..] != w[..|xs| - u]
  {
    hide AllRows, TokensAreClasses, NodeLinked;
    RootWord(p.words, p.ix);
    PrefixWord(p.words, p.ix, w, |xs| - u);
    if xs[u..] == w[..|xs| - u] {
      LongestIsLongest(p.ix, xs, w[..|xs| - u]);
      assert false;
    }
  }

  /** At the root no pattern is in progress: what started on the trace has ended. */
  lemma {:induction false} NothingInProgress(p: SearchPlan, h: Bytes, offs: seq<nat>, xs: Word, local: Best, q: nat, i: nat)
    requires p.Valid() && !OpaqueContinuation(p) && Scanned(p, h, offs, xs, local) && IsState(p, xs, 0)
    requires Occ(p.mode, h, p.Ps(), q, i) && |offs| == |xs| + 1 && offs[0] <= q < offs[|xs|]
    ensures End(p.mode, h, p.Ps(), q, i) <= offs[|xs|]
  {
    hide AllRows, AllLinked, TokensAreClasses, BestSoFar, Reaches, IsState, MatchEnd;
    if p.Ps()[i] != [] {
      OccStarts(p, h, q, i);
      StartIsBoundary(p, h, q, i, offs[0]);
      var u := OnTrace(p.mode, p.tokens, h, offs, xs, 0, q);
      assert p.Ps()[i][0..] == p.Ps()[i];
      MatchInProgress(p.Lex(), h, offs, xs, u, i, 0);
      var n := |p.toks[i]|;
      if u + n <= |xs| {
        TraceReaches(p.mode, p.tokens, h, offs, xs, u + n, |xs|);
      } else {
        assert p.toks[i] in p.ix;
        RootForgets(p, xs, p.toks[i], u);
      }
    } else {
      EmptyEnds(p.mode, h, p.Ps(), q, i);
    }
  }

  lemma {:induction false} EmptyEnds(m: Mode, h: Bytes, ps: seq<Pattern>, q: nat, i: nat)
    requires m.Valid() && Occ(m, h, ps, q, i) && i < |ps| && ps[i] == []
    ensures End(m, h, ps, q, i) == q
  {
  }

  /** What has ended on the trace is accounted for by the trace's own best. */
  lemma {:induction false} TraceAccounts(p: SearchPlan, h: Bytes, offs: seq<nat>, xs: Word, local: Best, best: Option<Hit>, q: nat, i: nat)
    requires p.Valid() && !OpaqueContinuation(p) && Scanned(p, h, offs, xs, local) && NoWorse(best, local, offs)
    requires Occ(p.mode, h, p.Ps(), q, i) && |offs| == |xs| + 1 && offs[0] <= q && End(p.mode, h, p.Ps(), q, i) <= offs[|xs|]
    requires p.Ps()[i] != []
    ensures best.Some? && Before(best.value, q, i)
  {
    hide AllLinked, AllRows, TokensAreClasses, Reaches, MatchEnd, OpaqueContinuation, Same;
    OccStarts(p, h, q, i);
    StartIsBoundary(p, h, q, i, offs[0]);
    var u := OnTrace(p.mode, p.tokens, h, offs, xs, 0, q);
    assert p.Ps()[i][0..] == p.Ps()[i] && p.toks[i][0..] == p.toks[i];
    MatchInProgress(p.Lex(), h, offs, xs, u, i, 0);
    MatchIsWord(p.Lex(), h, offs, xs, u, i, 0);
    EndedOnTrace(p.Lex(), h, offs, xs, u, i);
    assert Occurs(p.toks, xs, u, i);
    if local.unit < u {
      TraceReaches(p.mode, p.tokens, h, offs, xs, local.unit, u);
    }
  }

  lemma {:induction false} EndedOnTrace(lex: Lex, h: Bytes, offs: seq<nat>, xs: Word, u: nat, i: nat)
    requires lex.Faithful() && Trace(lex.m, lex.tk, h, offs, xs) && u <= |xs| && i < |lex.ps|
    requires MatchEnd(lex.m, h, offs[u], lex.ps[i]).Some? && MatchEnd(lex.m, h, offs[u], lex.ps[i]).value <= offs[|xs|]
    ensures u + |lex.toks[i]| <= |xs|
  {
    MatchAdvances(lex, h, offs, xs, u, i, 0);
    assert lex.ps[i][0..] == lex.ps[i];
  }

  /** A match that runs beyond the trace ends beyond it. */
  lemma {:induction false} MatchAdvances(lex: Lex, h: Bytes, offs: seq<nat>, xs: Word, u: nat, i: nat, j: nat)
    requires lex.Faithful() && Trace(lex.m, lex.tk, h, offs, xs) && u <= |xs| && i < |lex.ps| && j <= |lex.ps[i]|
    requires MatchEnd(lex.m, h, offs[u], lex.ps[i][j..]).Some?
    ensures u + (|lex.ps[i]| - j) > |xs| ==> MatchEnd(lex.m, h, offs[u], lex.ps[i][j..]).value > offs[|xs|]
    decreases |xs| - u
  {
    if u < |xs| && j < |lex.ps[i]| {
      assert lex.ps[i][j..][1..] == lex.ps[i][j + 1..];
      MatchAdvances(lex, h, offs, xs, u + 1, i, j + 1);
    }
  }

  function Take(best: Option<Hit>, start: nat, pattern: nat): Option<Hit> {
    if best.None? || start < best.value.start || (start == best.value.start && pattern < best.value.pattern)
    then Some(Hit(pattern, start)) else best
  }

  /** From the root, everything that started before `at` has ended. */
  lemma {:induction false} RootAccounts(p: SearchPlan, h: Bytes, offs: seq<nat>, xs: Word, local: Best, at: nat, best: Option<Hit>)
    requires p.Valid() && !OpaqueContinuation(p) && Scanned(p, h, offs, xs, local) && IsState(p, xs, 0)
    requires |offs| == |xs| + 1 && offs[|xs|] == at && Accounted(p, h, offs[0], at, best)
    ensures Accounted(p, h, at, at, best)
  {
    hide AllLinked, AllRows, TokensAreClasses, Scanned, Occ, End, IsState;
    forall q: nat, i: nat | Occ(p.mode, h, p.Ps(), q, i) && (q < at || End(p.mode, h, p.Ps(), q, i) <= at)
      ensures best.Some? && Before(best.value, q, i)
    {
      if offs[0] <= q < at {
        NothingInProgress(p, h, offs, xs, local, q, i);
      }
    }
  }

  /** Skipping rejected positions from the root accounts for everything before them. */
  lemma {:induction false} SkipAccounts(p: SearchPlan, h: Bytes, at: nat, to: nat, best: Option<Hit>)
    requires p.Valid() && !OpaqueContinuation(p) && Accounted(p, h, at, at, best) && at <= to <= |h|
    requires forall q, i: nat :: at <= q < to ==> !Starts(p, h, q, i)
    ensures Accounted(p, h, to, to, best)
  {
    hide AllLinked, AllRows, TokensAreClasses, End, Starts;
    forall q: nat, i: nat | Occ(p.mode, h, p.Ps(), q, i) && (q < to || End(p.mode, h, p.Ps(), q, i) <= to)
      ensures best.Some? && Before(best.value, q, i)
    {
      if p.Ps()[i] == [] {
        EmptyAccounts(p, h, at, best, q, i);
      } else if at <= q {
        OccStarts(p, h, q, i);
        NonemptyEnds(p, h, q, i);
      }
    }
  }

  /** A nonempty occurrence ends after it starts. */
  lemma {:induction false} NonemptyEnds(p: SearchPlan, h: Bytes, q: nat, i: nat)
    requires p.Valid() && Occ(p.mode, h, p.Ps(), q, i) && p.Ps()[i] != []
    ensures q < End(p.mode, h, p.Ps(), q, i)
  {
  }

  /** An empty pattern was accounted for at the start. */
  lemma {:induction false} EmptyAccounts(p: SearchPlan, h: Bytes, at: nat, best: Option<Hit>, q: nat, i: nat)
    requires p.Valid() && i < |p.Ps()| && p.Ps()[i] == []
    requires exists b: nat :: Accounted(p, h, b, at, best)
    ensures best.Some? && Before(best.value, q, i)
  {
    assert Occ(p.mode, h, p.Ps(), 0, i) && End(p.mode, h, p.Ps(), 0, i) == 0;
  }

  /** Reading one unit accounts for what ends there. */
  lemma {:induction false} ReadAccounts(p: SearchPlan, h: Bytes, offs: seq<nat>, xs: Word, local: Best, at: nat, best0: Option<Hit>, best: Option<Hit>)
    requires p.Valid() && !OpaqueContinuation(p) && Scanned(p, h, offs, xs, local) && |offs| == |xs| + 1
    requires Accounted(p, h, offs[0], at, best0) && NoWorse(best, local, offs)
    requires best0.Some? ==> best.Some? && Before(best.value, best0.value.start, best0.value.pattern)
    ensures Accounted(p, h, offs[0], offs[|xs|], best)
  {
    hide AllLinked, AllRows, TokensAreClasses, Scanned, Occ, End, NoWorse;
    forall q: nat, i: nat | Occ(p.mode, h, p.Ps(), q, i) && (q < offs[0] || End(p.mode, h, p.Ps(), q, i) <= offs[|xs|])
      ensures best.Some? && Before(best.value, q, i)
    {
      PatternOf(p, h, q, i);
      if p.Ps()[i] == [] {
        EmptyAccounts(p, h, at, best0, q, i);
      } else if offs[0] <= q {
        TraceAccounts(p, h, offs, xs, local, best, q, i);
      }
    }
  }

  lemma {:induction false} PatternOf(p: SearchPlan, h: Bytes, q: nat, i: nat)
    requires p.mode.Valid() && Occ(p.mode, h, p.Ps(), q, i)
    ensures i < |p.Ps()|
  {
  }

  /** An output on the trace is an occurrence at its start. */
  lemma {:induction false} OutputOccurs(p: SearchPlan, h: Bytes, offs: seq<nat>, xs: Word, local: Best, state: nat, out: Output)
    requires p.Valid() && !OpaqueContinuation(p) && Scanned(p, h, offs, xs, local) && |offs| == |xs| + 1
    requires IsState(p, xs, state) && out == p.nodes[state].output && out.Output?
    ensures 0 < out.units <= |xs| && Occ(p.mode, h, p.Ps(), offs[|xs| - out.units], out.pattern)
  {
    hide AllLinked, AllRows, TokensAreClasses, Reaches, BestSoFar, MatchEnd, OpaqueContinuation, Same, IsState, IsOutput, MatchesAt, Automaton.Spelled, Starts;
    StateOutput(p, xs, state);
    OutputIsOccurrence(p.toks, xs, out);
    var u, i := |xs| - out.units, out.pattern;
    OccursIsMatch(p.Lex(), h, offs, xs, u, i);
    assert Spells(p.mode, p.tokens, p.Ps()[i], p.toks[i]);
    NonemptyStarts(p, h, offs[u], i);
    OccStarts(p, h, offs[u], i);
  }

  /** Everything is accounted for, so the best candidate is the answer. */
  lemma {:induction false} AllAccounted(p: SearchPlan, h: Bytes, at: nat, best: Option<Hit>)
    requires p.Valid() && Found(p, h, best) && Accounted(p, h, at, at, best)
    requires at == |h| || (best.Some? && best.value.start < at <= |h|)
    ensures best == FindFrom(p.mode, h, p.Ps())
  {
    hide AllLinked, AllRows, TokensAreClasses, Occ, FindFrom;
    assert Answer(p.mode, h, p.Ps(), 0, |h|, best);
    WholeAnswer(p.mode, h, p.Ps(), |h|);
    AnswerUnique(p.mode, h, p.Ps(), 0, |h|, best, FindFrom(p.mode, h, p.Ps()));
  }

  lemma {:induction false} NoTriples(h: Bytes)
    ensures forall q: nat :: !AdmitsTriple([], h, q)
  {
  }

  /** The filters nominate, in `outer`, every position at which a pattern starts in the
      part `h` of it that stands at `base`. */
  ghost predicate NominatesStarts(p: SearchPlan, fs: Filters, h: Bytes, outer: Bytes, base: nat)
    reads p
  {
    base + |h| <= |outer| && forall q: nat, i: nat :: Starts(p, h, q, i) ==> Nominates(fs, outer, base + q)
  }

  /** The filters' nibble tables, where they have them. */
  datatype Tables = Tables(triples: Option<Shufti.TripleTables>, pairs: Option<Shufti.PairTables>)

  ghost predicate TablesOf(tables: Tables, fs: Filters) {
    && (tables.triples.Some? ==> AllMarked(fs.triples) && Shufti.TriplesProject(tables.triples.value, fs.triples))
    && (tables.pairs.Some? ==> exists raw :: Shufti.MadeFrom(tables.pairs.value, raw, fs.root))
  }

  method MakeTables(fs: Filters) returns (tables: Tables)
    requires AllMarked(fs.triples) && LettersFold(fs.root)
    ensures TablesOf(tables, fs)
    ensures tables.triples.Some? <==> 4 <= |fs.triples| <= 8
  {
    hide AllMarked, LettersFold, Shufti.TriplesProject, Shufti.MadeFrom, Shufti.PairShuftiAt, Shufti.PairListed;
    var triples := Shufti.MakeTripleShuftiFilter(fs.triples);
    var pairs: Option<Shufti.PairTables>;
    ghost var raw;
    pairs, raw := Shufti.MakePairShuftiFilter(fs.root);
    tables := Tables(triples, pairs);
  }

  /** The positions from `at` on that the root filter rejects, by whichever scan the
      filter and the processor allow. */
  method RootFilterSkip(h: Bytes, at: nat, fs: Filters, tables: Tables) returns (skipped: nat)
    requires at <= |h| && TablesOf(tables, fs)
    ensures at + skipped <= |h| && forall q :: at <= q < at + skipped ==> !Admits(fs.root, h, q)
  {
    hide Admits, Shufti.MadeFrom, Shufti.TriplesProject, AllMarked;
    var vector: bool := *;
    if PairSecond(fs.root) {
      skipped := PairSecondSkipBytes(h, at, fs.root);
    } else if tables.pairs.Some? && vector {
      ghost var raw :| Shufti.MadeFrom(tables.pairs.value, raw, fs.root);
      skipped := Shufti.PairShuftiSkipScalar(h, at, tables.pairs.value, fs.root, raw);
    } else {
      skipped := FilterSkipGeneralBytes(h, at, fs.root);
    }
  }

  /** The positions from `at` on at which no triple stands, with or without tables. */
  method TripleSkip(h: Bytes, at: nat, fs: Filters, tables: Tables) returns (skipped: nat)
    requires at <= |h| && TablesOf(tables, fs)
    ensures at + skipped <= |h| && forall q :: at <= q < at + skipped ==> !AdmitsTriple(fs.triples, h, q)
  {
    hide AdmitsTriple, Shufti.TriplesProject, AllMarked;
    var vector: bool := *;
    if tables.triples.Some? && vector {
      skipped := Shufti.TripleShuftiSkipScalar(h, at, tables.triples.value, fs.triples);
    } else {
      skipped := TripleSkipScalar(h, at, fs.triples);
    }
  }

  /** The positions of `h` from `at` on that cannot start a pattern. The scout may look
      past the end of `h`, but a skip never goes beyond it. */
  method Skip(p: SearchPlan, h: Bytes, outer: Bytes, base: nat, at: nat, fs: Filters, tables: Tables) returns (to: nat)
    requires p.Valid() && NominatesStarts(p, fs, h, outer, base) && TablesOf(tables, fs) && at <= |h|
    ensures at <= to <= |h| && forall q, i: nat :: at <= q < to ==> !Starts(p, h, q, i)
  {
    hide AllLinked, AllRows, TokensAreClasses, Starts, Admits, AdmitsTriple, TablesOf;
    var skipped := RootFilterSkip(outer, base + at, fs, tables);
    if fs.triples != [] {
      var tripleSkipped := TripleSkip(outer, base + at, fs, tables);
      if tripleSkipped < skipped {
        skipped := tripleSkipped;
      }
    } else {
      NoTriples(outer);
    }
    to := if at + skipped > |h| then |h| else at + skipped;
    forall q, i: nat | at <= q < to ensures !Starts(p, h, q, i) {
      var r := base + q;
      assert !Admits(fs.root, outer, r) && !AdmitsTriple(fs.triples, outer, r);
    }
  }

  /** The empty pattern's candidate, at the very start. */
  lemma {:induction false} EmptyFound(p: SearchPlan, h: Bytes, best: Option<Hit>)
    requires p.Valid() && best == (if p.empty.Some? then Some(Hit(p.empty.value, 0)) else None)
    ensures Found(p, h, best) && Accounted(p, h, 0, 0, best)
    ensures NoWorse(best, EmptyBest(p.empty), [0])
  {
    hide AllLinked, AllRows, TokensAreClasses;
    forall q: nat, i: nat | Occ(p.mode, h, p.Ps(), q, i) && End(p.mode, h, p.Ps(), q, i) <= 0
      ensures best.Some? && Before(best.value, q, i)
    {
      assert p.Ps()[i] == [];
    }
    if p.empty.Some? {
      assert MatchesAt(p.mode, h, 0, p.Ps(), p.empty.value);
    }
  }

  /** A new trace starts at `at`; the empty candidate is no worse than its own. */
  lemma {:induction false} NewTrace(p: SearchPlan, h: Bytes, at: nat, best: Option<Hit>)
    requires p.Valid() && at <= |h| && Accounted(p, h, at, at, best)
    ensures NoWorse(best, EmptyBest(p.empty), [at])
  {
    hide AllLinked, AllRows, TokensAreClasses, Occ;
    if p.empty.Some? {
      EmptyAccounts(p, h, at, best, at, p.empty.value);
    }
  }

  /** The candidate taken is no worse than what the trace now knows. */
  lemma {:induction false} TakeIsNoWorse(best0: Option<Hit>, local0: Best, offs0: seq<nat>, to: nat, end: nat, out: Output, best: Option<Hit>)
    requires NoWorse(best0, local0, offs0) && |offs0| == end && (out.Output? ==> 0 < out.units <= end)
    requires best == if out.Output? then Take(best0, offs0[end - out.units], out.pattern) else best0
    ensures NoWorse(best, Improve(local0, end, out), offs0 + [to])
    ensures best0.Some? ==> best.Some? && Before(best.value, best0.value.start, best0.value.pattern)
  {
  }

  /** The state of the filtered scan: a trace since the last jump, the best candidate
      over the whole text, and a ring of recent offsets. */
  ghost predicate Filtering(p: SearchPlan, h: Bytes, ring: seq<nat>, history: nat, at: nat, state: nat, best: Option<Hit>,
                            offs: seq<nat>, xs: Word, local: Best)
    reads p
  {
    && |xs| == history && |offs| == history + 1 && offs[history] == at <= |h| && state < |p.words|
    && Scanned(p, h, offs, xs, local) && Agrees(p, h, at, xs, state) && IsState(p, xs, state)
    && NoWorse(best, local, offs) && Found(p, h, best) && Accounted(p, h, offs[0], at, best)
    && RingHolds(ring, offs, history, history, p.maxUnits)
  }

  /** A fresh trace from `at`. */
  lemma {:induction false} Restart(p: SearchPlan, h: Bytes, ring: seq<nat>, at: nat, best: Option<Hit>)
    requires p.Valid() && at <= |h| && Accounted(p, h, at, at, best) && Found(p, h, best) && |ring| > 0 && p.maxUnits <= |ring|
    ensures Filtering(p, h, ring, 0, at, 0, best, [at], [], EmptyBest(p.empty))
  {
    hide AllLinked, AllRows, TokensAreClasses, Scanned, Agrees, IsState, NoWorse, Accounted, Found;
    NewTrace(p, h, at, best);
    Started(p, h, at);
    StartState(p);
    StateAgrees(p, h, at, [], 0);
    RingEmpty(ring, [at], p.maxUnits);
  }

  /** From the root: answer, or jump to the next admitted position. */
  method Jump(p: SearchPlan, h: Bytes, outer: Bytes, base: nat, fs: Filters, tables: Tables, starts: array<nat>, history: nat, at0: nat, best: Option<Hit>,
              ghost offs: seq<nat>, ghost xs: Word, ghost local: Best) returns (done: bool, at: nat)
    requires p.Valid() && !OpaqueContinuation(p) && NominatesStarts(p, fs, h, outer, base) && TablesOf(tables, fs)
    requires Filtering(p, h, starts[..], history, at0, 0, best, offs, xs, local) && at0 < |h|
    requires starts.Length > 0 && p.maxUnits <= starts.Length
    ensures at0 <= at <= |h|
    ensures if done then best == FindFrom(p.mode, h, p.Ps())
            else at < |h| && Filtering(p, h, starts[..], 0, at, 0, best, [at], [], EmptyBest(p.empty))
  {
    hide AllLinked, AllRows, TokensAreClasses, Scanned, Agrees, IsState, NoWorse, Accounted, Found, NominatesStarts, TablesOf, Starts, RingHolds, FindFrom;
    at := at0;
    RootAccounts(p, h, offs, xs, local, at, best);
    if best.Some? && at > best.value.start {
      AllAccounted(p, h, at, best);
      return true, at;
    }
    at := Skip(p, h, outer, base, at0, fs, tables);
    SkipAccounts(p, h, at0, at, best);
    done := at == |h|;
    if done {
      AllAccounted(p, h, at, best);
    } else {
      Restart(p, h, starts[..], at, best);
    }
  }

  /** A compact map, if the plan has one. */
  ghost predicate MapOf(p: SearchPlan, table: Option<seq<nat>>)
    reads p
  {
    table.Some? ==> Mapped(p, table.value)
  }

  /** Read the next unit, by the compact map with the decoder behind it when there is one. */
  method ReadMapped(p: SearchPlan, table: Option<seq<nat>>, s: Bytes, at: nat, state: nat, ghost best: Best, ghost offs0: seq<nat>, ghost xs0: Word)
    returns (next: nat, out: Output, to: nat, ghost offs: seq<nat>, ghost xs: Word)
    requires p.Valid() && MapOf(p, table) && at < |s| && state < |p.words| && |offs0| == |xs0| + 1 && offs0[|xs0|] == at
    requires Scanned(p, s, offs0, xs0, best) && Agrees(p, s, at, xs0, state)
    ensures next < |p.words| && to == at + SizeAt(p.mode, s, at) <= |s|
    ensures |xs| == |xs0| + 1 && offs == offs0 + [to]
    ensures IsState(p, xs, next) && out == p.nodes[next].output
    ensures Agrees(p, s, to, xs, next) && Scanned(p, s, offs, xs, Improve(best, |xs|, out))
  {
    hide Trace, BestSoFar, AllLinked, TokensAreClasses, AllRows, Target, Longest, Automaton.Spelled, WordIndex, TokenAt, Improve, Mapped;
    if table.None? {
      next, out, to, offs, xs := ReadUnit(p, s, at, state, best, offs0, xs0);
      return;
    }
    var size;
    next, size := RawOrDecodedAdvance(p, table.value, s, at, state);
    out := p.nodes[next].output;
    to := at + size;
    ghost var token := TokenAt(p, s, at);
    ReadOne(p, s, offs0, xs0, best, state, next, token, to, out);
    offs, xs := offs0 + [to], xs0 + [token];
    StateAgrees(p, s, to, xs, next);
  }

  /** Read one unit and take its output. */
  method ReadAndTake(p: SearchPlan, table: Option<seq<nat>>, h: Bytes, starts: array<nat>, history: nat, at: nat, state0: nat, best0: Option<Hit>,
                     ghost offs0: seq<nat>, ghost xs0: Word, ghost local0: Best)
    returns (state: nat, to: nat, best: Option<Hit>, ghost offs: seq<nat>, ghost xs: Word, ghost local: Best)
    requires p.Valid() && !OpaqueContinuation(p) && MapOf(p, table) && at < |h|
    requires Filtering(p, h, starts[..], history, at, state0, best0, offs0, xs0, local0)
    modifies starts
    ensures at < to && Filtering(p, h, starts[..], history + 1, to, state, best, offs, xs, local)
  {
    hide AllLinked, AllRows, TokensAreClasses, Scanned, Agrees, IsState, NoWorse, Accounted, Found, RingHolds, Take, Improve, Occ, MapOf;
    ghost var ring := starts[..];
    RingLength(ring, offs0, history, p.maxUnits);
    starts[history % starts.Length] := at;
    RingPut(ring, offs0, history, p.maxUnits, at);
    assert starts[..] == ring[history % |ring| := at];
    var out;
    state, out, to, offs, xs := ReadMapped(p, table, h, at, state0, local0, offs0, xs0);
    local := Improve(local0, history + 1, out);
    RingExtends(starts[..], offs0, history, p.maxUnits, to);
    best := best0;
    if out.Output? {
      OutputInRing(p, xs, starts[..], offs, history, out, state);
      OutputOccurs(p, h, offs, xs, local, state, out);
      best := Take(best0, starts[(history + 1 - out.units) % starts.Length], out.pattern);
      TakeFound(p, h, best0, offs[history + 1 - out.units], out.pattern);
    }
    TakeIsNoWorse(best0, local0, offs0, to, history + 1, out, best);
    ReadAccounts(p, h, offs, xs, local, at, best0, best);
  }

  lemma {:induction false} RingLength(ring: seq<nat>, offs: seq<nat>, unit: nat, maxUnits: nat)
    requires RingHolds(ring, offs, unit, unit, maxUnits)
    ensures |ring| > 0 && maxUnits <= |ring|
  {
  }

  /** The filtered scan of the part `h` of `outer` at `base`, whatever the filters are, as
      long as they nominate every start. */
  method ScanFiltered(p: SearchPlan, table: Option<seq<nat>>, h: Bytes, outer: Bytes, base: nat, fs: Filters) returns (hit: Option<Hit>)
    requires p.Valid() && !OpaqueContinuation(p) && NominatesStarts(p, fs, h, outer, base)
    requires AllMarked(fs.triples) && LettersFold(fs.root) && MapOf(p, table)
    ensures hit == FindFrom(p.mode, h, p.Ps())
  {
    hide AllLinked, AllRows, TokensAreClasses, TablesOf, AllMarked, LettersFold, Filtering, NominatesStarts, OpaqueContinuation, FindFrom, Accounted, Found, MapOf;
    var tables := MakeTables(fs);
    var starts := new nat[if p.maxUnits > INLINE_STARTS then p.maxUnits else INLINE_STARTS];
    var state: nat, history: nat, at: nat := 0, 0, 0;
    var best: Option<Hit> := if p.empty.Some? then Some(Hit(p.empty.value, 0)) else None;
    ghost var offs: seq<nat>, xs: Word, local := [0], [], EmptyBest(p.empty);
    EmptyFound(p, h, best);
    Restart(p, h, starts[..], 0, best);
    while at < |h|
      invariant at <= |h| && Filtering(p, h, starts[..], history, at, state, best, offs, xs, local)
      decreases |h| - at
    {
      if state == 0 {
        var done;
        done, at := Jump(p, h, outer, base, fs, tables, starts, history, at, best, offs, xs, local);
        if done {
          return best;
        }
        history, offs, xs, local := 0, [at], [], EmptyBest(p.empty);
      }
      state, at, best, offs, xs, local := ReadAndTake(p, table, h, starts, history, at, state, best, offs, xs, local);
      history := history + 1;
      FilteringBounds(p, h, starts[..], history, at, state, best, offs, xs, local);
    }
    FilteringBounds(p, h, starts[..], history, at, state, best, offs, xs, local);
    NothingLeft(p, h, offs[0], best);
    hit := best;
  }

  lemma {:induction false} FilteringBounds(p: SearchPlan, h: Bytes, ring: seq<nat>, history: nat, at: nat, state: nat, best: Option<Hit>,
                                           offs: seq<nat>, xs: Word, local: Best)
    requires Filtering(p, h, ring, history, at, state, best, offs, xs, local)
    ensures at <= |h| && |offs| > 0 && Found(p, h, best) && Accounted(p, h, offs[0], at, best)
  {
  }

  lemma {:induction false} TakeFound(p: SearchPlan, h: Bytes, best: Option<Hit>, start: nat, pattern: nat)
    requires Found(p, h, best) && Occ(p.mode, h, p.Ps(), start, pattern)
    ensures Found(p, h, Take(best, start, pattern))
  {
    hide Occ;
  }

  /** At the end everything has ended. */
  lemma {:induction false} NothingLeft(p: SearchPlan, h: Bytes, b: nat, best: Option<Hit>)
    requires p.Valid() && Found(p, h, best) && Accounted(p, h, b, |h|, best)
    ensures best == FindFrom(p.mode, h, p.Ps())
  {
    hide AllLinked, AllRows, TokensAreClasses, FindFrom, Occ;
    assert Accounted(p, h, |h|, |h|, best);
    AllAccounted(p, h, |h|, best);
  }

  /** The filtered scan of a whole haystack. */
  method FindFiltered(p: SearchPlan, table: Option<seq<nat>>, h: Bytes, fs: Filters) returns (hit: Option<Hit>)
    requires p.Valid() && !OpaqueContinuation(p) && Conservative(p, fs) && MapOf(p, table)
    ensures hit == FindFrom(p.mode, h, p.Ps())
  {
    hide AllLinked, AllRows, TokensAreClasses, Nominates, Starts, FindFrom, OpaqueContinuation, MapOf;
    hit := ScanFiltered(p, table, h, h, 0, fs);
  }

  /** A pattern that starts inside a part of the haystack starts in the haystack. */
  lemma {:induction false} StartsOutside(p: SearchPlan, outer: Bytes, start: nat, end: nat, q: nat, i: nat)
    requires start <= end && SafeCut(outer, end) && Starts(p, outer[start..end], q, i)
    ensures Starts(p, outer, start + q, i) && start + q < end
  {
    hide MatchEnd;
    var t := outer[..end];
    assert outer[start..end] == t[start..];
    MatchSuffix(p.mode, t, start, q, p.Ps()[i]);
    MatchCut(p.mode, outer, end, start + q, p.Ps()[i]);
  }

  /** The filtered scan of an ASCII stretch, by triples that may leave out roots no ASCII
      text can reach. The scout may read two bytes beyond the stretch. */
  method FindASCIITripleFilteredRange(p: SearchPlan, outer: Bytes, start: nat, end: nat, ts: seq<Triple>) returns (hit: Option<Hit>)
    requires p.Valid() && !OpaqueContinuation(p) && ScreensAscii(p, ts) && AsciiRange(outer, start, end)
    ensures hit == FindFrom(p.mode, outer[start..end], p.Ps())
  {
    hide AllLinked, AllRows, TokensAreClasses, Starts, FindFrom, OpaqueContinuation, AdmitsTriple;
    var h, fs := outer[start..end], Filters(RootFilter([], []), ts);
    forall q: nat, i: nat | Starts(p, h, q, i) ensures Nominates(fs, outer, start + q) {
      StartsIn(p, h, q, i);
      assert IsAscii(outer[end - 1]);
      StartsOutside(p, outer, start, end, q, i);
      assert StartsAscii(p, outer, start + q, i);
    }
    hit := ScanFiltered(p, None, h, outer, start, fs);
  }
}
