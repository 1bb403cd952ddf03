/** The decoded scan with its ASCII prefix: units are bytes there, and stretches that
    keep the automaton at its root are skipped. */
module Decoded {
  import opened Utf8
  import opened Spec
  import opened Automaton
  import opened Lexer
  import opened Scan
  import opened Links
  import opened Plan
  import opened Search
  import opened AsciiSkip
  import Fold
  import Swar

  /** The bytes at which a skip of sixteen must stop: those that start a pattern, and
      all that are not ASCII. */
  predicate RootByte(p: SearchPlan, b: byte)
    requires |p.nodes| > 0
    reads p
  {
    !IsAscii(b) || p.tokens.Of(Rune(b)) in p.nodes[0].edges
  }

  /** Reading the ASCII byte at `at` from the root changes nothing that a later token
      can tell: it starts no pattern, or starts one that the next byte cannot continue. */
  ghost predicate Idle(p: SearchPlan, s: Bytes, at: nat)
    reads p
  {
    && at < |s| && IsAscii(s[at])
    && var t := TokenAt(p, s, at);
       && [] in p.ix && IsOutput(p.toks, Longest(p.ix, [t]), NoOutput)
       && (at + 1 < |s| ==> [t, TokenAt(p, s, at + 1)] !in p.ix)
  }

  ghost predicate IdleRun(p: SearchPlan, s: Bytes, at: nat, n: nat)
    reads p
  {
    at + n <= |s| && forall q :: at <= q < at + n ==> Idle(p, s, q)
  }

  lemma {:induction false} IdleOne(p: SearchPlan, s: Bytes, offs: seq<nat>, xs: Word, best: Best, to: nat)
    requires p.Valid() && |offs| == |xs| + 1 && Scanned(p, s, offs, xs, best) && Idle(p, s, offs[|xs|])
    requires Agrees(p, s, offs[|xs|], xs, 0) && to == offs[|xs|] + 1
    ensures var t := TokenAt(p, s, offs[|xs|]);
            Scanned(p, s, offs + [to], xs + [t], best) && Agrees(p, s, to, xs + [t], 0)
  {
    hide TokensAreClasses, AllRows, BestSoFar, WordIndex, IsOutput, Longest, IsTrie, Spells, Trace, Agrees, Target, IsSuffix;
    var at := offs[|xs|];
    var t := TokenAt(p, s, at);
    RootAgrees(p, s, at, xs);
    AsciiUnit(p.mode, s, at);
    TraceExtend(p.mode, p.tokens, s, offs, xs);
    OutputOfText(p.toks, p.ix, xs + [t], NoOutput);
    StepBest(p.toks, xs, t, best, NoOutput);
    if to < |s| {
      IdleToken(p.words, p.ix, xs, t, TokenAt(p, s, to));
    }
    RootAgrees(p, s, to, xs + [t]);
  }

  /** What it means for the root to agree with the text read so far. */
  lemma {:induction false} RootAgrees(p: SearchPlan, s: Bytes, at: nat, xs: Word)
    requires p.Valid() && at <= |s|
    ensures [] in p.ix && WordIndex(p.words, p.ix)
    ensures Agrees(p, s, at, xs, 0) <==>
              (at < |s| ==> Longest(p.ix, xs + [TokenAt(p, s, at)]) == Longest(p.ix, [TokenAt(p, s, at)]))
  {
    hide TokensAreClasses, AllRows, WordIndex, IsOutput, Longest, Spells, Target, IsSuffix, TokenAt;
    StartState(p);
    if at < |s| {
      TargetOfRoot(p.words, p.ix, TokenAt(p, s, at));
    }
  }

  /** Skipping an idle run is reading it. */
  lemma {:induction false} SkipRun(p: SearchPlan, s: Bytes, offs: seq<nat>, xs: Word, best: Best, n: nat) returns (offs': seq<nat>, xs': Word)
    requires p.Valid() && |offs| == |xs| + 1 && (forall u :: 0 <= u <= |xs| ==> offs[u] == u)
    requires Scanned(p, s, offs, xs, best) && Agrees(p, s, |xs|, xs, 0) && IdleRun(p, s, |xs|, n)
    ensures |xs'| == |xs| + n && |offs'| == |xs'| + 1 && (forall u :: 0 <= u <= |xs'| ==> offs'[u] == u)
    ensures Scanned(p, s, offs', xs', best) && Agrees(p, s, |xs'|, xs', 0)
    decreases n
  {
    hide Trace, BestSoFar, AllLinked, TokensAreClasses, AllRows, Agrees, Idle;
    if n == 0 {
      offs', xs' := offs, xs;
    } else {
      var to: nat := |xs| + 1;
      IdleOne(p, s, offs, xs, best, to);
      offs', xs' := SkipRun(p, s, offs + [to], xs + [TokenAt(p, s, |xs|)], best, n - 1);
    }
  }

  // ----- what may be skipped

  lemma {:induction false} RootEdge(p: SearchPlan, t: nat)
    requires p.Valid()
    ensures |p.nodes| > 0 && (t in p.nodes[0].edges <==> [t] in p.ix)
    ensures t in p.nodes[0].edges ==> t != 0 && p.nodes[0].edges[t] < |p.nodes| && p.words[p.nodes[0].edges[t]] == [t]
  {
    hide TokensAreClasses, AllRows, IsOutput, Longest, Spells;
    RootWord(p.words, p.ix);
    assert p.words[0] + [t] == [t];
    assert Front([t]) == [] && Last([t]) == t;
  }

  /** A byte that starts no pattern is idle. */
  lemma {:induction false} NonRootIdle(p: SearchPlan, s: Bytes, q: nat)
    requires p.Valid() && !p.mode.exact && |p.nodes| > 0 && q < |s| && !RootByte(p, s[q])
    ensures Idle(p, s, q)
  {
    hide TokensAreClasses, AllRows, Spells, AllLinked;
    var t := TokenAt(p, s, q);
    AsciiUnit(p.mode, s, q);
    RootEdge(p, t);
    StartState(p);
    assert [t][1..] == [];
    if q + 1 < |s| {
      assert Front([t, TokenAt(p, s, q + 1)]) == [t];
    }
  }

  /** After the token `t` at the root comes no output, and only what `kind` and
      `needle` accept. */
  ghost predicate Narrowed(p: SearchPlan, t: nat, kind: Kind, needle: byte)
    reads p
  {
    && [t] in p.ix && IsOutput(p.toks, [t], NoOutput)
    && forall b: byte :: IsAscii(b) && [t, p.tokens.Of(Rune(b))] in p.ix ==> Meets(kind, needle, b)
  }

  /** A first byte whose required second byte does not follow is idle. */
  lemma {:induction false} UnpairedIdle(p: SearchPlan, s: Bytes, q: nat, kind: Kind, needle: byte)
    requires p.Valid() && !p.mode.exact && AsciiPair(s, q) && !Meets(kind, needle, s[q + 1])
    requires Narrowed(p, TokenAt(p, s, q), kind, needle)
    ensures Idle(p, s, q)
  {
    hide TokensAreClasses, AllRows, Spells, AllLinked;
    AsciiUnit(p.mode, s, q);
    AsciiUnit(p.mode, s, q + 1);
    StartState(p);
    assert [TokenAt(p, s, q), p.tokens.Of(Rune(s[q + 1]))] !in p.ix;
  }

  /** The ASCII spelling flags of a token. */
  function TokenFlags(p: SearchPlan, token: nat): (flags: seq<bool>)
    reads p
    ensures |flags| == 0x80 && forall b :: 0 <= b < 0x80 ==> (flags[b] <==> p.tokens.Of(Rune(b)) == token)
  {
    seq(0x80, b reads p => p.tokens.Of(Rune(b)) == token)
  }

  function RootFlags(p: SearchPlan): (flags: seq<bool>)
    requires |p.nodes| > 0
    reads p
    ensures |flags| == 0x80 && forall b: byte :: b < 0x80 ==> (flags[b] <==> RootByte(p, b))
  {
    seq(0x80, b requires |p.nodes| > 0 && 0 <= b < 0x80 reads p => RootByte(p, b))
  }

  /** The shape of the root: the bytes a skip stops at, and the second byte it may
      further require when the first has a single, silent continuation. */
  ghost predicate Shape(p: SearchPlan, rootKind: Kind, rootNeedle: byte, pairKind: Kind, pairNeedle: byte)
    reads p
  {
    && |p.nodes| > 0
    && (rootKind != Generic ==> forall b: byte :: IsAscii(b) ==> (RootByte(p, b) <==> Meets(rootKind, rootNeedle, b)))
    && (pairKind != Generic ==>
          (forall b: byte :: IsAscii(b) && RootByte(p, b) ==> Narrowed(p, p.tokens.Of(Rune(b)), pairKind, pairNeedle)))
    && (pairKind != Generic ==> rootKind != Generic)
  }

  lemma {:induction false} Singleton<T>(s: set<T>, x: T)
    requires |s| == 1 && x in s
    ensures s == {x}
  {
    assert |s - {x}| == 0;
  }

  /** All roots that ASCII text can reach are one byte, or the two cases of one letter. */
  ghost predicate SpecialRoot(p: SearchPlan)
    reads p
  {
    |p.nodes| > 0 && Special(RootFlags(p))
  }

  /** Behind a root byte comes no output, and one token only, which is special. */
  ghost predicate SpecialSecond(p: SearchPlan, b: byte)
    reads p
  {
    && |p.nodes| > 0 && RootByte(p, b) && p.tokens.Of(Rune(b)) in p.nodes[0].edges
    && var child := p.nodes[0].edges[p.tokens.Of(Rune(b))];
       && child < |p.nodes| && p.nodes[child].output == NoOutput
       && exists next: nat :: p.nodes[child].edges.Keys == {next} && Special(TokenFlags(p, next))
  }

  /** The shape that is compiled: special whenever the roots are, and likewise for what
      follows them. */
  method RootShape(p: SearchPlan) returns (rootKind: Kind, rootNeedle: byte, pairKind: Kind, pairNeedle: byte)
    requires p.Valid() && Fold.FoldsAsciiLetters(p.mode.fold)
    ensures Shape(p, rootKind, rootNeedle, pairKind, pairNeedle)
    ensures rootKind != Generic <==> SpecialRoot(p)
    ensures pairKind != Generic <==> SpecialRoot(p) && exists b: byte :: IsAscii(b) && SpecialSecond(p, b)
  {
    hide Special;
    StartState(p);
    var first;
    rootKind, rootNeedle, first := KindOf(RootFlags(p));
    pairKind, pairNeedle := Generic, 0;
    if rootKind != Generic {
      RootEdge(p, p.tokens.Of(Rune(first)));
      forall b: byte | IsAscii(b) && RootByte(p, b) ensures p.tokens.Of(Rune(b)) == p.tokens.Of(Rune(first)) {
        SameRootToken(p, rootKind, rootNeedle, first, b);
      }
      SecondAlike(p, first, p.tokens.Of(Rune(first)));
      pairKind, pairNeedle := PairShape(p, first);
    }
  }

  /** What follows the only root token, when nothing ends there and one token follows. */
  method PairShape(p: SearchPlan, first: byte) returns (kind: Kind, needle: byte)
    requires p.Valid() && |p.nodes| > 0 && IsAscii(first) && RootByte(p, first)
    ensures kind != Generic <==> SpecialSecond(p, first)
    ensures kind != Generic ==> Narrowed(p, p.tokens.Of(Rune(first)), kind, needle)
  {
    hide Special, TokensAreClasses, AllRows, AllLinked;
    var token := p.tokens.Of(Rune(first));
    RootEdge(p, token);
    var child := p.nodes[0].edges[token];
    var edges := p.nodes[child].edges.Keys;
    if p.nodes[child].output != NoOutput || |edges| != 1 {
      return Generic, 0;
    }
    var next :| next in edges;
    Singleton(edges, next);
    var unused;
    kind, needle, unused := KindOf(TokenFlags(p, next));
    assert edges == {next};
    if kind != Generic {
      OneContinuation(p, token, child, next, kind, needle);
    }
  }

  /** When all root bytes share a token, one of them stands for all. */
  lemma {:induction false} SecondAlike(p: SearchPlan, first: byte, token: nat)
    requires |p.nodes| > 0 && IsAscii(first) && RootByte(p, first) && token == p.tokens.Of(Rune(first))
    requires forall b: byte :: IsAscii(b) && RootByte(p, b) ==> p.tokens.Of(Rune(b)) == token
    ensures (exists b: byte :: IsAscii(b) && SpecialSecond(p, b)) <==> SpecialSecond(p, first)
  {
    hide Special;
  }

  lemma {:induction false} OneContinuation(p: SearchPlan, token: nat, child: nat, next: nat, kind: Kind, needle: byte)
    requires p.Valid() && child < |p.nodes| && p.words[child] == [token] && p.nodes[child].output == NoOutput
    requires p.nodes[child].edges.Keys == {next}
    requires kind != Generic && Describes(kind, needle, TokenFlags(p, next))
    ensures Narrowed(p, token, kind, needle)
  {
    hide TokensAreClasses, AllRows, Longest, Spells;
    assert NodeLinked(p.nodes, p.words, p.ix, p.toks, child);
    assert p.words[child] in p.ix;
    forall b: byte | IsAscii(b) && [token, p.tokens.Of(Rune(b))] in p.ix ensures Meets(kind, needle, b) {
      var t := p.tokens.Of(Rune(b));
      assert p.words[child] + [t] == [token, t];
      assert t in p.nodes[child].edges;
    }
  }

  lemma {:induction false} SameRootToken(p: SearchPlan, kind: Kind, needle: byte, first: byte, b: byte)
    requires p.Valid() && Fold.FoldsAsciiLetters(p.mode.fold) && |p.nodes| > 0 && IsAscii(first) && IsAscii(b)
    requires RootByte(p, first) && RootByte(p, b) && Meets(kind, needle, first) && Meets(kind, needle, b) && kind != Generic
    requires kind == AsciiFold ==> IsAsciiLetter(first)
    ensures p.tokens.Of(Rune(b)) == p.tokens.Of(Rune(first))
  {
    if b != first {
      var upper := if b < first then b else first;
      assert Fold.SameOrbit(p.mode.fold, upper, upper + 0x20);
      assert Same(p.mode, Rune(upper), Rune(upper + 0x20));
      RootEdge(p, p.tokens.Of(Rune(upper)));
    }
  }

  // ----- the scan

  /** How far the scan may skip from a root state: past bytes outside the root set or
      past incomplete pairs when the root is a single byte or letter, else past whole
      blocks of sixteen. */
  method IdleSkip(p: SearchPlan, s: Bytes, at: nat, rootKind: Kind, rootNeedle: byte, pairKind: Kind, pairNeedle: byte)
    returns (skipped: nat)
    requires p.Valid() && !p.mode.exact && at <= |s|
    requires Shape(p, rootKind, rootNeedle, pairKind, pairNeedle)
    ensures IdleRun(p, s, at, skipped)
  {
    hide TokensAreClasses, AllRows, AllLinked, Spells, Idle, Narrowed;
    if rootKind == Generic {
      if at + 16 > |s| || exists q :: at <= q < at + 16 && RootByte(p, s[q]) {
        return 0;
      }
      forall q | at <= q < at + 16 ensures Idle(p, s, q) {
        NonRootIdle(p, s, q);
      }
      return 16;
    }
    if pairKind == Generic {
      skipped := Swar.RootSkip(s, at, rootKind, rootNeedle);
      forall q | at <= q < at + skipped ensures Idle(p, s, q) {
        NonRootIdle(p, s, q);
      }
      return;
    }
    skipped := PairSkipASCII(s, at, rootKind, rootNeedle, pairKind, pairNeedle);
    forall q | at <= q < at + skipped ensures Idle(p, s, q) {
      assert AsciiPair(s, q) && !PairAt(s, q, rootKind, rootNeedle, pairKind, pairNeedle);
      if RootByte(p, s[q]) {
        AsciiUnit(p.mode, s, q);
        UnpairedIdle(p, s, q, pairKind, pairNeedle);
      } else {
        NonRootIdle(p, s, q);
      }
    }
  }

  /** The ASCII prefix up to `at` has been read: units are bytes. */
  ghost predicate Prefix(s: Bytes, at: nat, offs: seq<nat>, xs: Word) {
    && at <= |s| && |xs| == at && |offs| == at + 1 && (forall u :: 0 <= u <= at ==> offs[u] == u)
  }

  /** Skip idle stretches from the root, unless the answer is already settled. */
  method SkipIdle(p: SearchPlan, s: Bytes, at0: nat, best: Best, rootKind: Kind, rootNeedle: byte, pairKind: Kind, pairNeedle: byte,
                  ghost offs0: seq<nat>, ghost xs0: Word) returns (at: nat, settled: bool, ghost offs: seq<nat>, ghost xs: Word)
    requires p.Valid() && !p.mode.exact && Shape(p, rootKind, rootNeedle, pairKind, pairNeedle)
    requires Prefix(s, at0, offs0, xs0) && Scanned(p, s, offs0, xs0, best) && Agrees(p, s, at0, xs0, 0)
    ensures Prefix(s, at, offs, xs) && Scanned(p, s, offs, xs, best) && Agrees(p, s, at, xs, 0)
    ensures at0 <= at && (settled ==> best.Best? && at >= best.unit + p.maxUnits)
  {
    hide Trace, BestSoFar, AllLinked, TokensAreClasses, AllRows, Idle, Shape, Agrees;
    at, offs, xs, settled := at0, offs0, xs0, false;
    while at < |s|
      invariant at0 <= at
      invariant Prefix(s, at, offs, xs) && Scanned(p, s, offs, xs, best) && Agrees(p, s, at, xs, 0)
      decreases |s| - at
    {
      var skipped := IdleSkip(p, s, at, rootKind, rootNeedle, pairKind, pairNeedle);
      if skipped == 0 {
        return;
      }
      offs, xs := SkipRun(p, s, offs, xs, best, skipped);
      at := at + skipped;
      if best.Best? && at >= best.unit + p.maxUnits {
        settled := true;
        return;
      }
    }
  }

  /** Read one ASCII byte. */
  method ReadAscii(p: SearchPlan, s: Bytes, at: nat, state: nat, best0: Best, ghost offs0: seq<nat>, ghost xs0: Word)
    returns (next: nat, best: Best, ghost offs: seq<nat>, ghost xs: Word)
    requires p.Valid() && at < |s| && IsAscii(s[at]) && state < |p.words|
    requires Prefix(s, at, offs0, xs0) && Scanned(p, s, offs0, xs0, best0) && Agrees(p, s, at, xs0, state)
    ensures Prefix(s, at + 1, offs, xs) && Scanned(p, s, offs, xs, best) && Agrees(p, s, at + 1, xs, next)
    ensures next < |p.words|
  {
    hide Trace, BestSoFar, AllLinked, TokensAreClasses, AllRows, Target, Longest, Automaton.Spelled, WordIndex, IsState, Agrees, Scanned;
    AsciiUnit(p.mode, s, at);
    var out, to;
    next, out, to, offs, xs := ReadUnit(p, s, at, state, best0, offs0, xs0);
    best := Improve(best0, to, out);
  }

  /** The decoded scan without byte filters: an ASCII prefix in which unit and byte
      offsets agree, then the ring scan. */
  method FindUnfilteredDecodedLegacy(p: SearchPlan, s: Bytes) returns (hit: Option<Hit>)
    requires p.Valid() && !p.mode.exact && Fold.FoldsAsciiLetters(p.mode.fold)
    ensures hit == FindFrom(p.mode, s, p.Ps())
  {
    hide Trace, BestSoFar, AllLinked, TokensAreClasses, AllRows, FindFrom, Target, Longest, Spelled, WordIndex, IsState, Idle, Shape, Agrees;
    var rootKind, rootNeedle, pairKind, pairNeedle := RootShape(p);
    var at: nat, state: nat, best := 0, 0, EmptyBest(p.empty);
    ghost var offs: seq<nat>, xs: Word := [0], [];
    Started(p, s, 0);
    StartState(p);
    StateAgrees(p, s, 0, [], 0);
    while at < |s| && IsAscii(s[at])
      invariant Prefix(s, at, offs, xs) && state < |p.words|
      invariant Scanned(p, s, offs, xs, best) && Agrees(p, s, at, xs, state)
      decreases |s| - at
    {
      if state == 0 {
        var settled;
        at, settled, offs, xs := SkipIdle(p, s, at, best, rootKind, rootNeedle, pairKind, pairNeedle, offs, xs);
        if settled {
          Finished(p, s, offs, xs, best);
          return Some(Hit(best.pattern, best.unit));
        }
        if at == |s| || !IsAscii(s[at]) {
          break;
        }
      }
      state, best, offs, xs := ReadAscii(p, s, at, state, best, offs, xs);
      at := at + 1;
      if best.Best? && at >= best.unit + p.maxUnits {
        Finished(p, s, offs, xs, best);
        return Some(Hit(best.pattern, best.unit));
      }
    }
    if at == |s| {
      Finished(p, s, offs, xs, best);
      return if best.Best? then Some(Hit(best.pattern, best.unit)) else None;
    }
    var starts := new nat[if p.maxUnits > INLINE_STARTS then p.maxUnits else INLINE_STARTS];
    hit := FindNonASCIIDecoded(p, s, at, state, best, starts, xs, offs);
  }
}
