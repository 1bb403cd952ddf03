/** One pattern on its own: its tokens are kept in a row and compared with those of the
    source, one after the other. */
module Singles {
  import opened Utf8
  import opened Spec
  import opened Lexer
  import opened Plan
  import opened Search

  /** The units of the only pattern are its spelling as tokens. */
  lemma {:induction false} LoneSpelling(p: SearchPlan)
    requires p.Valid() && |p.patterns| == 1
    ensures p.mode.Valid() && |p.Ps()| == |p.toks| == 1 && p.Ps()[0] == Units(p.mode, p.patterns[0])
    ensures Spells(p.mode, p.tokens, p.Ps()[0], p.toks[0])
  {
    hide AllRows, Spells;
  }

  /** The unit at `at` is the `j`-th, and its token the `j`-th token. */
  lemma {:induction false} TokenNext(p: SearchPlan, at: nat, j: nat)
    requires p.Valid() && |p.patterns| == 1 && |p.toks| == 1 && |p.Ps()| == 1 && at < |p.patterns[0]| && j <= |p.Ps()[0]|
    requires Units(p.mode, p.patterns[0], at) == p.Ps()[0][j..]
    ensures j < |p.toks[0]| == |p.Ps()[0]| && p.tokens.Of(UnitAt(p.mode, p.patterns[0], at)) == p.toks[0][j]
    ensures Units(p.mode, p.patterns[0], at + SizeAt(p.mode, p.patterns[0], at)) == p.Ps()[0][j + 1..]
  {
    hide SearchPlan.Valid, UnitAt, SizeAt;
    LoneSpelling(p);
    var a, pattern := p.Ps()[0], p.patterns[0];
    assert a[j] == a[j..][0] == UnitAt(p.mode, pattern, at);
    assert a[j + 1..] == a[j..][1..];
    SameReflexive(p.mode, a[j]);
  }

  /** The tokens of the only pattern. */
  method SingleTokens(p: SearchPlan) returns (tokens: seq<nat>)
    requires p.Valid() && |p.patterns| == 1
    ensures p.toks == [tokens]
  {
    hide SearchPlan.Valid, UnitAt, SizeAt, Spells, Units;
    LoneSpelling(p);
    var pattern := p.patterns[0];
    ghost var a := p.Ps()[0];
    assert Units(p.mode, pattern, 0) == a[0..];
    var at: nat := 0;
    tokens := [];
    while at < |pattern|
      invariant at <= |pattern| && |tokens| <= |a| && |tokens| <= |p.toks[0]|
      invariant tokens == p.toks[0][..|tokens|] && Units(p.mode, pattern, at) == a[|tokens|..]
      decreases |pattern| - at
    {
      TokenNext(p, at, |tokens|);
      var unit: nat, size: nat := p.tokens.Of(UnitAt(p.mode, pattern, at)), SizeAt(p.mode, pattern, at);
      tokens := tokens + [unit];
      at := at + size;
    }
    AllTokens(p, at, |tokens|);
    assert p.toks[0][..|tokens|] == p.toks[0];
    assert p.toks == [p.toks[0]];
  }

  lemma {:induction false} AllTokens(p: SearchPlan, at: nat, j: nat)
    requires p.Valid() && |p.patterns| == 1 && |p.toks| == 1 && |p.Ps()| == 1 && at == |p.patterns[0]| && j <= |p.Ps()[0]|
    requires Units(p.mode, p.patterns[0], at) == p.Ps()[0][j..]
    ensures j == |p.toks[0]|
  {
    hide SearchPlan.Valid;
    LoneSpelling(p);
  }

  /** Compare the tokens one by one. */
  method MatchesSingleAt(p: SearchPlan, tokens: seq<nat>, h: Bytes, start: nat) returns (ok: bool)
    requires p.Valid() && |p.patterns| == 1 && p.toks == [tokens] && start <= |h|
    ensures ok <==> MatchEnd(p.mode, h, start, p.Ps()[0]).Some?
  {
    hide SearchPlan.Valid, FormLen, FormRune, SizeAt, UnitAt, Same, Units, Spells;
    LoneSpelling(p);
    ghost var a := p.Ps()[0];
    assert |tokens| == |a| by {
      SpelledLength(p, tokens);
    }
    assert a[0..] == a;
    var at := start;
    for k := 0 to |tokens|
      invariant start <= at <= |h| && (MatchEnd(p.mode, h, start, a).Some? <==> MatchEnd(p.mode, h, at, a[k..]).Some?)
    {
      assert a[k..][0] == a[k] && a[k..][1..] == a[k + 1..];
      if at == |h| {
        return false;
      }
      var token, size := HaystackToken(p, h, at);
      TokenSame(p, tokens, h, at, k);
      if token != tokens[k] {
        return false;
      }
      at := at + size;
    }
    ok := true;
  }

  lemma {:induction false} SpelledLength(p: SearchPlan, tokens: seq<nat>)
    requires p.Valid() && |p.patterns| == 1 && p.toks == [tokens]
    ensures |tokens| == |p.Ps()[0]|
  {
    hide SearchPlan.Valid;
    LoneSpelling(p);
  }

  lemma {:induction false} TokenSame(p: SearchPlan, tokens: seq<nat>, h: Bytes, at: nat, k: nat)
    requires p.Valid() && |p.patterns| == 1 && p.toks == [tokens] && at < |h| && k < |p.Ps()[0]|
    ensures k < |tokens| && (TokenAt(p, h, at) == tokens[k] <==> Same(p.mode, UnitAt(p.mode, h, at), p.Ps()[0][k]))
  {
    hide SearchPlan.Valid, Same;
    LoneSpelling(p);
  }
}
