/** Token classes: the compact alphabet of a plan. Each simple-fold orbit and each
    opaque byte that some pattern uses has one token; every other unit has token 0. */
module Lexer {
  import opened Utf8
  import opened Spec
  import Fold

  datatype Tokens = Tokens(runes: map<int, nat>, bytes: map<byte, nat>) {
    function Of(u: CodeUnit): nat {
      match u
      case Rune(r) => if r in runes then runes[r] else 0
      case Raw(b) => if b in bytes then bytes[b] else 0
    }
  }

  lemma {:induction false} SameReflexive(m: Mode, u: CodeUnit)
    requires m.Valid()
    ensures Same(m, u, u)
  {
    if u.Rune? {
      Fold.OrbitReflexive(m.fold, u.rune);
    }
  }

  lemma {:induction false} SameSymmetric(m: Mode, u: CodeUnit, v: CodeUnit)
    requires m.Valid() && Same(m, u, v)
    ensures Same(m, v, u)
  {
    if u.Rune? {
      Fold.OrbitSymmetric(m.fold, u.rune, v.rune);
    }
  }

  lemma {:induction false} SameTransitive(m: Mode, u: CodeUnit, v: CodeUnit, w: CodeUnit)
    requires m.Valid() && Same(m, u, v) && Same(m, v, w)
    ensures Same(m, u, w)
  {
    if u.Rune? {
      Fold.OrbitTransitive(m.fold, u.rune, v.rune, w.rune);
    }
  }

  /** Two units have the same nonzero token exactly when they match each other. */
  ghost predicate TokensAreClasses(m: Mode, tk: Tokens, next: nat)
    requires m.Valid()
  {
    && next > 0
    && (forall u :: tk.Of(u) < next)
    && (forall u, v {:trigger tk.Of(u), tk.Of(v)} :: tk.Of(u) != 0 ==> (tk.Of(u) == tk.Of(v) <==> Same(m, u, v)))
  }

  /** The classes after the class of `u` has received the token `token`. */
  ghost predicate Extends(m: Mode, tk: Tokens, u: CodeUnit, token: nat, tk': Tokens)
    requires m.Valid()
  {
    forall v :: tk'.Of(v) == if Same(m, u, v) then token else tk.Of(v)
  }

  /** A fresh token for a class that had none keeps every other class apart. */
  lemma {:induction false} FreshClass(m: Mode, tk: Tokens, next: nat, u: CodeUnit, tk': Tokens)
    requires m.Valid() && TokensAreClasses(m, tk, next) && tk.Of(u) == 0
    requires Extends(m, tk, u, next, tk')
    ensures TokensAreClasses(m, tk', next + 1)
    ensures tk'.Of(u) == next
    ensures forall v :: tk.Of(v) != 0 ==> tk'.Of(v) == tk.Of(v)
  {
    SameReflexive(m, u);
    forall v | tk.Of(v) != 0 ensures tk'.Of(v) == tk.Of(v) {
      if Same(m, u, v) {
        SameSymmetric(m, u, v);
        assert false;
      }
    }
    forall v, w | tk'.Of(v) != 0 ensures tk'.Of(v) == tk'.Of(w) <==> Same(m, v, w) {
      if Same(m, u, v) {
        SameSymmetric(m, u, v);
        if Same(m, v, w) { SameTransitive(m, u, v, w); }
        if Same(m, u, w) { SameTransitive(m, v, u, w); }
      } else if Same(m, u, w) {
        SameSymmetric(m, u, w);
        if Same(m, v, w) {
          SameSymmetric(m, v, w);
          SameTransitive(m, u, w, v);
        }
      }
    }
  }

  /** What the search theory needs of a compiled pattern set: the words in `toks`
      spell the patterns `ps`, and a haystack unit has the token of a pattern unit
      exactly when the two match. */
  datatype Lex = Lex(m: Mode, tk: Tokens, ps: seq<Pattern>, toks: seq<seq<nat>>) {
    ghost predicate Faithful() {
      && m.Valid()
      && |toks| == |ps|
      && (forall i :: 0 <= i < |ps| ==> Spells(m, tk, ps[i], toks[i]))
    }
  }

  ghost predicate Spells(m: Mode, tk: Tokens, p: Pattern, w: seq<nat>)
    requires m.Valid()
  {
    && |w| == |p|
    && (forall j :: 0 <= j < |w| ==> w[j] != 0)
    && (forall j, u :: 0 <= j < |w| ==> (tk.Of(u) == w[j] <==> Same(m, u, p[j])))
  }

  lemma {:induction false} SpellsNothing(m: Mode, tk: Tokens)
    requires m.Valid()
    ensures Spells(m, tk, [], [])
  {
  }

  /** The offsets visited by decoding `s` from `offs[0]`, one per unit, and the tokens read. */
  ghost predicate Trace(m: Mode, tk: Tokens, s: Bytes, offs: seq<nat>, xs: seq<nat>) {
    && |offs| == |xs| + 1
    && (forall u :: 0 <= u < |offs| ==> offs[u] <= |s|)
    && (forall u :: 0 <= u < |xs| ==>
          offs[u] < |s| && offs[u + 1] == offs[u] + SizeAt(m, s, offs[u]) && xs[u] == tk.Of(UnitAt(m, s, offs[u])))
  }

  lemma {:induction false} TraceExtend(m: Mode, tk: Tokens, s: Bytes, offs: seq<nat>, xs: seq<nat>)
    requires Trace(m, tk, s, offs, xs) && offs[|xs|] < |s|
    ensures var at := offs[|xs|];
            Trace(m, tk, s, offs + [at + SizeAt(m, s, at)], xs + [tk.Of(UnitAt(m, s, at))])
  {
  }

  lemma {:induction false} TraceReaches(m: Mode, tk: Tokens, s: Bytes, offs: seq<nat>, xs: seq<nat>, u: nat, v: nat)
    requires Trace(m, tk, s, offs, xs) && u <= v <= |xs|
    ensures offs[u] + (v - u) <= offs[v]
    ensures Reaches(m, s, offs[u], offs[v])
    decreases v - u
  {
    if u < v {
      TraceReaches(m, tk, s, offs, xs, u + 1, v);
    }
  }

  /** A place reached from the start of a trace, and not beyond its end, is on it. */
  lemma {:induction false} OnTrace(m: Mode, tk: Tokens, s: Bytes, offs: seq<nat>, xs: seq<nat>, u: nat, q: nat) returns (v: nat)
    requires Trace(m, tk, s, offs, xs) && u <= |xs| && q <= offs[|xs|] && q <= |s| && Reaches(m, s, offs[u], q)
    ensures u <= v <= |xs| && offs[v] == q
    decreases |xs| - u
  {
    if offs[u] == q {
      v := u;
    } else {
      v := OnTrace(m, tk, s, offs, xs, u + 1, q);
    }
  }

  /** Matching a pattern at a traced offset is finding its word in the traced tokens. */
  lemma {:induction false} MatchIsWord(lex: Lex, s: Bytes, offs: seq<nat>, xs: seq<nat>, u: nat, i: nat, j: nat)
    requires lex.Faithful() && Trace(lex.m, lex.tk, s, offs, xs)
    requires i < |lex.ps| && j <= |lex.ps[i]| && u <= |xs|
    ensures var end := MatchEnd(lex.m, s, offs[u], lex.ps[i][j..]);
            var w := lex.toks[i][j..];
            if u + |w| <= |xs| then (end.Some? <==> xs[u..u + |w|] == w) && (end.Some? ==> end.value == offs[u + |w|])
            else offs[|xs|] == |s| ==> end == None
    decreases |lex.ps[i]| - j
  {
    hide Same, FormLen, FormRune, SizeAt, UnitAt;
    var w := lex.toks[i][j..];
    if j < |lex.ps[i]| {
      if u < |xs| {
        MatchIsWord(lex, s, offs, xs, u + 1, i, j + 1);
        assert lex.ps[i][j..][1..] == lex.ps[i][j + 1..];
        assert w[1..] == lex.toks[i][j + 1..];
        assert Spells(lex.m, lex.tk, lex.ps[i], lex.toks[i]);
        var v := UnitAt(lex.m, s, offs[u]);
        assert lex.tk.Of(v) == lex.toks[i][j] <==> Same(lex.m, v, lex.ps[i][j]);
        if u + |w| <= |xs| {
          assert xs[u..u + |w|] == [xs[u]] + xs[u + 1..u + |w|];
          assert w == [w[0]] + w[1..];
        }
      }
    }
  }

  /** A match that begins on a trace has either ended on it, or its word continues the
      traced tokens. */
  lemma {:induction false} MatchInProgress(lex: Lex, s: Bytes, offs: seq<nat>, xs: seq<nat>, u: nat, i: nat, j: nat)
    requires lex.Faithful() && Trace(lex.m, lex.tk, s, offs, xs)
    requires i < |lex.ps| && j <= |lex.ps[i]| && u <= |xs| && MatchEnd(lex.m, s, offs[u], lex.ps[i][j..]).Some?
    ensures var n := |lex.toks[i]| - j;
            if u + n <= |xs| then MatchEnd(lex.m, s, offs[u], lex.ps[i][j..]).value == offs[u + n]
            else xs[u..] == lex.toks[i][j..j + (|xs| - u)]
    decreases |lex.ps[i]| - j
  {
    hide Same, FormLen, FormRune, SizeAt, UnitAt;
    if j < |lex.ps[i]| && u < |xs| {
      assert lex.ps[i][j..][1..] == lex.ps[i][j + 1..];
      MatchInProgress(lex, s, offs, xs, u + 1, i, j + 1);
      assert Spells(lex.m, lex.tk, lex.ps[i], lex.toks[i]);
      assert lex.tk.Of(UnitAt(lex.m, s, offs[u])) == lex.toks[i][j];
      assert xs[u..] == [xs[u]] + xs[u + 1..];
    }
  }
}
