/** The filters compiled for the patterns of the failing example: four triples for ASCII
    text, and none that could screen any text. */
module MissFilters {
  import opened Utf8
  import opened Spec
  import opened Automaton
  import opened Lexer
  import opened Trie
  import opened Links
  import opened Plan
  import opened Search
  import opened AsciiSkip
  import opened Decoded
  import opened RootFilters
  import opened Rooms
  import opened TripleFilters
  import opened MissPatterns
  import Fold

  // ----- the trie below the four ASCII roots

  /** The words that start with a letter of their own; the other one starts like the
      first. */
  predicate Leading(i: nat) {
    i == 0 || 2 <= i < 5
  }

  lemma {:induction false} WordsLong(p: SearchPlan, i: nat)
    requires MissPlan(p) && i < 5
    ensures |p.toks| == 22 && |p.toks[i]| == |WordOf(i)| && |p.Ps()| == 22 && IsWord(p.Ps()[i], WordOf(i))
  {
    hide SearchPlan.Valid, SearchPlan.NoSpareToken, SearchPlan.NoSpareWord, SearchPlan.Attained, Ordinary, Spells, WordOf;
    PlanSpelt(p);
  }

  lemma {:induction false} WidesShort(p: SearchPlan, i: nat)
    requires MissPlan(p) && 5 <= i < 22
    ensures |p.toks| == 22 && |p.toks[i]| == 1 && |p.Ps()| == 22 && p.Ps()[i] == [Rune(Wide(i))]
  {
    hide SearchPlan.Valid, SearchPlan.NoSpareToken, SearchPlan.NoSpareWord, SearchPlan.Attained, Ordinary, Spells, WordOf, Wide;
    PlanSpelt(p);
  }

  /** Patterns that start alike go on alike for three units. */
  lemma {:induction false} StartAlike(p: SearchPlan, i: nat, l: nat, k: nat)
    requires MissPlan(p) && Leading(i) && l < |p.toks| == 22 && k < 3 && k < |p.toks[l]| && |p.toks[i]| > 0
    requires p.toks[l][0] == p.toks[i][0]
    ensures k < |p.toks[i]| && p.toks[l][k] == p.toks[i][k] && l < 5
  {
    hide SearchPlan.Valid, SearchPlan.NoSpareToken, SearchPlan.NoSpareWord, SearchPlan.Attained, Ordinary;
    PlanSpelt(p);
    WordsLong(p, i);
    TokensTell(p, l, 0, i, 0);
    if l >= 5 {
      WidesShort(p, l);
      assert false;
    } else {
      WordsLong(p, l);
      TokensTell(p, l, k, i, k);
    }
  }

  /** Behind one or two letters of a leading word stands its next letter alone. */
  lemma {:induction false} Follows(p: SearchPlan, i: nat, k: nat, t: nat)
    requires MissPlan(p) && Leading(i) && |p.toks| == 22 && 1 <= k < 3 && k < |p.toks[i]|
    ensures p.toks[i][..k] + [t] in p.ix <==> t == p.toks[i][k]
  {
    hide SearchPlan.Valid, SearchPlan.NoSpareToken, SearchPlan.NoSpareWord, SearchPlan.Attained, Ordinary;
    var x := p.toks[i][..k] + [t];
    if x in p.ix {
      var l := BeginsOne(p, x);
      assert p.toks[l][0] == x[0] == p.toks[i][0] && p.toks[l][k] == x[k] == t;
      StartAlike(p, i, l, k);
    }
    if t == p.toks[i][k] {
      InTrie(p, i, k + 1);
      assert x == p.toks[i][..k + 1];
    }
  }

  lemma {:induction false} InTrie(p: SearchPlan, i: nat, k: nat)
    requires p.Valid() && i < |p.toks| && k <= |p.toks[i]|
    ensures p.toks[i][..k] in p.ix
  {
    hide AllRows, TokensAreClasses, NodeLinked, Spells;
    assert p.toks[i] in p.ix;
    PrefixWord(p.words, p.ix, p.toks[i], k);
  }

  /** Nothing ends behind one or two letters of a leading word. */
  lemma {:induction false} Silent(p: SearchPlan, i: nat, k: nat, s: nat)
    requires MissPlan(p) && Leading(i) && |p.toks| == 22 && 1 <= k < 3 && k < |p.toks[i]|
    requires s < |p.nodes| == |p.words| && p.words[s] == p.toks[i][..k]
    ensures p.nodes[s].output == NoOutput
  {
    hide SearchPlan.Valid, SearchPlan.NoSpareToken, SearchPlan.NoSpareWord, SearchPlan.Attained, Ordinary;
    var out, x := p.nodes[s].output, p.words[s];
    EndsHere(p, s);
    if out.Output? {
      var w := p.toks[out.pattern];
      assert w[|w| - 1] == x[|x| - 1];
      PlanSpelt(p);
      NoneShort(p, i, k, out.pattern);
      assert false;
    }
  }

  lemma {:induction false} EndsHere(p: SearchPlan, s: nat)
    requires p.Valid() && s < |p.nodes|
    ensures |p.words| == |p.nodes|
    ensures var out := p.nodes[s].output;
            out.Output? ==>
              out.pattern < |p.toks| && 0 < |p.toks[out.pattern]| <= |p.words[s]| &&
              p.words[s][|p.words[s]| - |p.toks[out.pattern]|..] == p.toks[out.pattern]
  {
    hide AllRows, TokensAreClasses, IsFailure, Spells;
    assert NodeLinked(p.nodes, p.words, p.ix, p.toks, s);
  }

  /** A pattern of one or two units is a wide scalar, and no letter. */
  lemma {:induction false} NoneShort(p: SearchPlan, i: nat, k: nat, l: nat)
    requires MissPlan(p) && Leading(i) && |p.toks| == 22 && 1 <= k < 3 && k < |p.toks[i]| && l < 22 && 0 < |p.toks[l]| <= k
    ensures |p.toks[l]| == 1 && p.toks[l][0] != p.toks[i][k - 1]
  {
    hide SearchPlan.Valid, SearchPlan.NoSpareToken, SearchPlan.NoSpareWord, SearchPlan.Attained, Ordinary;
    WordsLong(p, i);
    if l < 5 {
      WordsLong(p, l);
      assert false;
    } else {
      WidesShort(p, l);
      TokensTell(p, l, 0, i, k - 1);
    }
  }

  // ----- what the letters are spelled

  /** No opaque byte has the token of a rune of a pattern. */
  lemma {:induction false} OnlyRunes(p: SearchPlan, i: nat, j: nat, f: Bytes)
    requires p.Valid() && i < |p.Ps()| && i < |p.toks| && j < |p.Ps()[i]| && p.Ps()[i][j].Rune?
    ensures j < |p.toks[i]| && (IsForm(p.tokens, p.toks[i][j], f) ==> RuneForm(p.tokens, p.toks[i][j], f))
  {
    hide AllRows, TokensAreClasses, AllLinked, RuneForm;
    assert Spells(p.mode, p.tokens, p.Ps()[i], p.toks[i]);
    if |f| == 1 {
      assert p.tokens.Of(Raw(f[0])) != p.toks[i][j];
    }
  }

  /** A letter of a word is spelled in its two cases and no other way. */
  lemma {:induction false} LetterForms(p: SearchPlan, i: nat, j: nat, c: byte, f: Bytes)
    requires MissPlan(p) && i < 5 && |p.toks| == 22 && |p.Ps()| == 22 && j < |p.Ps()[i]| && j < |p.toks[i]|
    requires p.Ps()[i][j] == Rune(c) && Small(c) && c != 0x30
    ensures IsForm(p.tokens, p.toks[i][j], f) <==> f == [c] || f == [c - 0x20]
  {
    hide SearchPlan.Valid, SearchPlan.NoSpareToken, SearchPlan.NoSpareWord, SearchPlan.Attained, Ordinary, Spells;
    var tk, token := p.tokens, p.toks[i][j];
    OnlyRunes(p, i, j, f);
    PlanSpelt(p);
    if RuneForm(tk, token, f) {
      var x :| x in tk.runes && tk.runes[x] == token && IsScalar(x) && f == Encode(x);
      assert tk.Of(Rune(x)) == token;
      OnlyCases(p, i, j, c, x);
    }
    OnlyCases(p, i, j, c, c);
    OnlyCases(p, i, j, c, c - 0x20);
    assert Encode(c) == [c] && Encode(c - 0x20) == [c - 0x20];
  }

  /** The scalars that have the token of a letter are its two cases. */
  lemma {:induction false} OnlyCases(p: SearchPlan, i: nat, j: nat, c: byte, x: int)
    requires MissPlan(p) && i < |p.toks| && i < |p.Ps()| && j < |p.Ps()[i]| && j < |p.toks[i]|
    requires p.Ps()[i][j] == Rune(c) && Small(c) && c != 0x30
    ensures p.toks[i][j] != 0 && (p.tokens.Of(Rune(x)) == p.toks[i][j] <==> x == c || x == c - 0x20)
  {
    hide AllRows, AllLinked, SearchPlan.NoSpareToken, SearchPlan.NoSpareWord, SearchPlan.Attained, TokensAreClasses;
    var m, t := p.mode, p.mode.fold;
    assert Spells(m, p.tokens, p.Ps()[i], p.toks[i]);
    assert Fold.Widest(t, c) == 1;
    if Fold.SameOrbit(t, x, c) {
      Fold.OrbitSymmetric(t, x, c);
      Fold.WidestInOrbit(t, c, x);
    }
    assert Fold.SameOrbit(t, c, c) && Fold.SameOrbit(t, c - 0x20, c);
  }

  lemma {:induction false} HasForm(tk: Tokens, token: nat, c: byte)
    requires token != 0 && c < 0x80 && tk.Of(Rune(c)) == token
    ensures IsForm(tk, token, [c])
  {
    assert Encode(c) == [c];
  }

  /** A wide scalar has no spelling of one byte. */
  lemma {:induction false} WideForms(p: SearchPlan, i: nat, f: Bytes)
    requires MissPlan(p) && 5 <= i < 22 && |p.toks| == 22 && |p.toks[i]| == 1 && IsForm(p.tokens, p.toks[i][0], f)
    ensures |f| > 1
  {
    hide AllRows, AllLinked, SearchPlan.NoSpareToken, SearchPlan.NoSpareWord, SearchPlan.Attained, TokensAreClasses, Wide;
    WidesShort(p, i);
    var m, tk, token, t := p.mode, p.tokens, p.toks[i][0], p.mode.fold;
    assert Spells(m, tk, p.Ps()[i], p.toks[i]);
    OnlyRunes(p, i, 0, f);
    var r :| r in tk.runes && tk.runes[r] == token && IsScalar(r) && f == Encode(r);
    assert tk.Of(Rune(r)) == token;
    Fold.OrbitSymmetric(t, r, Wide(i));
    Unmoved(t, Wide(i), r);
  }

  // ----- their triples

  /** The three letters of a leading word, in either case. */
  function TripleOf(i: nat): (t: Triple)
    requires i < 5
  {
    var s := WordOf(i);
    [Cell(s[0] as int, true), Cell(s[1] as int, true), Cell(s[2] as int, true)]
  }

  /** The only triple that reading on from `prefix` can show, and three bytes are sure. */
  ghost predicate One(p: SearchPlan, state: nat, token: nat, prefix: seq<Cell>, t: Triple)
    requires |prefix| < 3
    reads p
  {
    GoesOn(p, state, token, prefix) && forall u: Triple :: Rendered(p, state, token, prefix, u) <==> u == t
  }

  ghost predicate Cased(p: SearchPlan, token: nat, c: byte)
    reads p
  {
    0x61 <= c <= 0x7A && forall f :: IsForm(p.tokens, token, f) <==> f == [c] || f == [c - 0x20]
  }

  lemma {:induction false} CaseCells(c: byte, f: Bytes)
    requires 0x61 <= c <= 0x7A && (f == [c] || f == [c - 0x20])
    ensures CellsOf(f) == [Cell(c, true)]
  {
  }

  ghost predicate FormOne(p: SearchPlan, state: nat, prefix: seq<Cell>, f: Bytes, t: Triple)
    requires |prefix| < 3
    reads p
  {
    FormGoesOn(p, state, prefix, f) && forall u: Triple :: FormRendered(p, state, prefix, f, u) <==> u == t
  }

  /** A spelling that completes the triple. */
  lemma {:induction false} LastForm(p: SearchPlan, state: nat, prefix: seq<Cell>, c: byte, f: Bytes, t: Triple)
    requires |prefix| == 2 && 0x61 <= c <= 0x7A && (f == [c] || f == [c - 0x20]) && t == prefix + [Cell(c, true)]
    ensures FormOne(p, state, prefix, f, t)
  {
    CaseCells(c, f);
    assert (prefix + CellsOf(f))[..3] == t;
  }

  /** A spelling before it, behind which nothing ends and one token follows. */
  lemma {:induction false} EarlierForm(p: SearchPlan, state: nat, prefix: seq<Cell>, c: byte, f: Bytes, next: nat, t: Triple)
    requires |prefix| < 2 && 0x61 <= c <= 0x7A && (f == [c] || f == [c - 0x20])
    requires state < |p.nodes| && p.nodes[state].output == NoOutput && p.nodes[state].edges.Keys == {next}
    requires One(p, p.nodes[state].edges[next], next, prefix + [Cell(c, true)], t)
    ensures FormOne(p, state, prefix, f, t)
  {
    hide CellsOf, GoesOn, Rendered;
    CaseCells(c, f);
    var cells, child := prefix + [Cell(c, true)], p.nodes[state].edges[next];
    assert prefix + CellsOf(f) == cells && next in p.nodes[state].edges;
    forall u: Triple ensures FormRendered(p, state, prefix, f, u) <==> Rendered(p, child, next, cells, u) {
    }
    assert FormGoesOn(p, state, prefix, f);
  }

  /** When both cases of the letter lead to the triple, so does its token. */
  lemma {:induction false} BothCases(p: SearchPlan, state: nat, token: nat, prefix: seq<Cell>, c: byte, t: Triple)
    requires |prefix| < 3 && Cased(p, token, c) && FormOne(p, state, prefix, [c], t) && FormOne(p, state, prefix, [c - 0x20], t)
    ensures One(p, state, token, prefix, t)
  {
    hide FormGoesOn, FormRendered, IsForm;
    assert IsForm(p.tokens, token, [c]);
    assert FormRendered(p, state, prefix, [c], t);
    forall u: Triple | Rendered(p, state, token, prefix, u) ensures u == t {
      var f :| IsForm(p.tokens, token, f) && FormRendered(p, state, prefix, f, u);
      assert f == [c] || f == [c - 0x20];
    }
  }

  /** The third letter. */
  lemma {:induction false} LastLetter(p: SearchPlan, state: nat, token: nat, prefix: seq<Cell>, c: byte, t: Triple)
    requires |prefix| == 2 && Cased(p, token, c) && t == prefix + [Cell(c, true)]
    ensures One(p, state, token, prefix, t)
  {
    hide FormOne, IsForm, One;
    LastForm(p, state, prefix, c, [c], t);
    LastForm(p, state, prefix, c, [c - 0x20], t);
    BothCases(p, state, token, prefix, c, t);
  }

  /** A letter before it. */
  lemma {:induction false} EarlierLetter(p: SearchPlan, state: nat, token: nat, prefix: seq<Cell>, c: byte, next: nat, t: Triple)
    requires |prefix| < 2 && Cased(p, token, c) && state < |p.nodes| && p.nodes[state].output == NoOutput
    requires p.nodes[state].edges.Keys == {next} && One(p, p.nodes[state].edges[next], next, prefix + [Cell(c, true)], t)
    ensures One(p, state, token, prefix, t)
  {
    hide FormOne, IsForm, One;
    EarlierForm(p, state, prefix, c, [c], next, t);
    EarlierForm(p, state, prefix, c, [c - 0x20], next, t);
    BothCases(p, state, token, prefix, c, t);
  }

  /** The node behind `k` letters of a leading word. */
  lemma {:induction false} NodeBelow(p: SearchPlan, i: nat, k: nat) returns (s: nat)
    requires MissPlan(p) && Leading(i) && |p.toks| == 22 && 1 <= k <= 3 <= |p.toks[i]|
    ensures s < |p.nodes| == |p.words| && p.words[s] == p.toks[i][..k] && p.toks[i][..k] in p.ix && p.ix[p.toks[i][..k]] == s
  {
    hide SearchPlan.NoSpareToken, SearchPlan.NoSpareWord, SearchPlan.Attained, Ordinary, AllRows, TokensAreClasses, NodeLinked, Spells;
    InTrie(p, i, k);
    s := p.ix[p.toks[i][..k]];
  }

  lemma {:induction false} OneEdge(p: SearchPlan, i: nat, k: nat, s: nat, child: nat)
    requires MissPlan(p) && Leading(i) && |p.toks| == 22 && 1 <= k < 3 <= |p.toks[i]| && s < |p.nodes| == |p.words|
    requires p.words[s] == p.toks[i][..k] && p.toks[i][..k + 1] in p.ix && p.ix[p.toks[i][..k + 1]] == child
    ensures p.nodes[s].output == NoOutput && p.nodes[s].edges.Keys == {p.toks[i][k]} && p.nodes[s].edges[p.toks[i][k]] == child
  {
    hide SearchPlan.Valid, SearchPlan.NoSpareToken, SearchPlan.NoSpareWord, SearchPlan.Attained, Ordinary;
    Silent(p, i, k, s);
    forall t: nat ensures t in p.nodes[s].edges <==> t == p.toks[i][k] {
      Follows(p, i, k, t);
      EdgeWord(p, s, t);
    }
    assert p.toks[i][..k] + [p.toks[i][k]] == p.toks[i][..k + 1];
    EdgeWord(p, s, p.toks[i][k]);
  }

  lemma {:induction false} EdgeWord(p: SearchPlan, s: nat, t: nat)
    requires p.Valid() && s < |p.nodes|
    ensures |p.words| == |p.nodes| && (t in p.nodes[s].edges <==> p.words[s] + [t] in p.ix)
    ensures t in p.nodes[s].edges ==> p.nodes[s].edges[t] == p.ix[p.words[s] + [t]]
  {
    hide AllRows, TokensAreClasses, NodeLinked, Spells;
  }

  lemma {:induction false} WordCased(p: SearchPlan, i: nat, j: nat)
    requires MissPlan(p) && Leading(i) && j < 3
    ensures |p.toks| == 22 && |p.toks[i]| >= 3 && Cased(p, p.toks[i][j], WordOf(i)[j] as int)
  {
    hide SearchPlan.Valid, SearchPlan.NoSpareToken, SearchPlan.NoSpareWord, SearchPlan.Attained, Ordinary, IsForm;
    WordsLong(p, i);
    forall f ensures IsForm(p.tokens, p.toks[i][j], f) <==> f == [WordOf(i)[j] as int] || f == [WordOf(i)[j] as int - 0x20] {
      LetterForms(p, i, j, WordOf(i)[j] as int, f);
    }
  }

  /** Each leading word has one triple. */
  lemma {:induction false} OneTriple(p: SearchPlan, i: nat)
    requires MissPlan(p) && Leading(i)
    ensures |p.toks| == 22 && |p.toks[i]| >= 3 && |p.nodes| > 0 && p.toks[i][0] in p.nodes[0].edges
    ensures One(p, p.nodes[0].edges[p.toks[i][0]], p.toks[i][0], [], TripleOf(i))
  {
    hide SearchPlan.Valid, SearchPlan.NoSpareToken, SearchPlan.NoSpareWord, SearchPlan.Attained, Ordinary, Cased, One, WordOf;
    WordCased(p, i, 0);
    WordCased(p, i, 1);
    WordCased(p, i, 2);
    var a, b, c: byte := WordOf(i)[0] as int, WordOf(i)[1] as int, WordOf(i)[2] as int;
    var n1 := NodeBelow(p, i, 1);
    var n2 := NodeBelow(p, i, 2);
    var n3 := NodeBelow(p, i, 3);
    OneEdge(p, i, 1, n1, n2);
    OneEdge(p, i, 2, n2, n3);
    assert [Cell(a, true)] + [Cell(b, true)] == [Cell(a, true), Cell(b, true)] && [] + [Cell(a, true)] == [Cell(a, true)];
    LastLetter(p, n3, p.toks[i][2], [Cell(a, true), Cell(b, true)], c, TripleOf(i));
    EarlierLetter(p, n2, p.toks[i][1], [Cell(a, true)], b, p.toks[i][2], TripleOf(i));
    EarlierLetter(p, n1, p.toks[i][0], [], a, p.toks[i][1], TripleOf(i));
    RootNodeOf(p, i, n1);
  }

  lemma {:induction false} RootNodeOf(p: SearchPlan, i: nat, n: nat)
    requires p.Valid() && i < |p.toks| && |p.toks[i]| > 0 && p.toks[i][..1] in p.ix && p.ix[p.toks[i][..1]] == n
    ensures |p.nodes| > 0 && p.toks[i][0] in p.nodes[0].edges && p.nodes[0].edges[p.toks[i][0]] == n
  {
    hide AllRows, TokensAreClasses, NodeLinked, Spells;
    RootWord(p.words, p.ix);
    assert p.toks[i][..1] == p.words[0] + [p.toks[i][0]];
  }

  // ----- which roots fit

  /** Every root is the first token of a pattern. */
  lemma {:induction false} RootBegins(p: SearchPlan, token: nat) returns (i: nat)
    requires MissPlan(p) && |p.nodes| > 0 && token in p.nodes[0].edges
    ensures i < 22 && |p.toks| == 22 && |p.toks[i]| > 0 && p.toks[i][0] == token
  {
    hide SearchPlan.Valid, SearchPlan.NoSpareToken, SearchPlan.NoSpareWord, SearchPlan.Attained, Ordinary;
    RootEdge(p, token);
    i := BeginsOne(p, [token]);
    PlanSpelt(p);
    assert p.toks[i][0] == [token][0];
  }

  /** A root that fits is the first letter of a leading word. */
  lemma {:induction false} FitsLeads(p: SearchPlan, ts: seq<Triple>, token: nat) returns (i: nat)
    requires MissPlan(p) && Fits(p, ts, token)
    ensures Leading(i) && |p.toks| == 22 && |p.toks[i]| >= 3 && p.toks[i][0] == token
  {
    hide SearchPlan.Valid, SearchPlan.NoSpareToken, SearchPlan.NoSpareWord, SearchPlan.Attained, Ordinary, GoesOn, Renderings, Room, IsForm, UnsafeRoot, WordOf;
    i := RootBegins(p, token);
    if i >= 5 {
      WidesShort(p, i);
      var f :| IsForm(p.tokens, token, f) && |f| == 1 && IsAsciiLetter(f[0]);
      WideForms(p, i, f);
      assert false;
    } else if i == 1 {
      WordsLong(p, 0);
      WordsLong(p, 1);
      FirstTwo(p);
      i := 0;
    } else {
      WordsLong(p, i);
    }
  }

  lemma {:induction false} FirstTwo(p: SearchPlan)
    requires MissPlan(p) && |p.toks| == 22 && |p.toks[0]| > 0 && |p.toks[1]| > 0
    ensures p.toks[0][0] == p.toks[1][0]
  {
    hide SearchPlan.Valid, SearchPlan.NoSpareToken, SearchPlan.NoSpareWord, SearchPlan.Attained, Ordinary;
    WordsLong(p, 0);
    WordsLong(p, 1);
    TokensTell(p, 0, 0, 1, 0);
  }

  /** A wide root fits beside nothing. */
  lemma {:induction false} WideLeftOut(p: SearchPlan, ts: seq<Triple>)
    requires MissPlan(p)
    ensures !AllRootsFit(p, ts)
  {
    hide SearchPlan.Valid, SearchPlan.NoSpareToken, SearchPlan.NoSpareWord, SearchPlan.Attained, Ordinary, Fits, WordOf;
    PlanSpelt(p);
    WidesShort(p, 5);
    RootOf(p, 5);
    if Fits(p, ts, p.toks[5][0]) {
      var i := FitsLeads(p, ts, p.toks[5][0]);
      WordsLong(p, i);
      TokensTell(p, 5, 0, i, 0);
      assert false;
    }
  }

  function FourTriples(): (ts: seq<Triple>)
    ensures |ts| == 4
  {
    [TripleOf(0), TripleOf(2), TripleOf(3), TripleOf(4)]
  }

  /** Whatever triples are kept are among the four. */
  lemma {:induction false} AmongFour(p: SearchPlan, ts: seq<Triple>, t: Triple)
    requires MissPlan(p) && KeptTriples(p, ts) && t in ts
    ensures t in FourTriples()
  {
    hide SearchPlan.Valid, SearchPlan.NoSpareToken, SearchPlan.NoSpareWord, SearchPlan.Attained, Ordinary, Fits, TripleOf, Tidy;
    var roots: set<nat> :| RootsKept(p, ts, roots);
    var root :| root in roots && OfRoot(p, root, t);
    var i := FitsLeads(p, ts, root);
    OneTriple(p, i);
  }

  /** Each leading word's root fits beside them. */
  lemma {:induction false} LeadFits(p: SearchPlan, ts: seq<Triple>, i: nat)
    requires MissPlan(p) && KeptTriples(p, ts) && Leading(i)
    ensures |p.toks| == 22 && |p.toks[i]| >= 3 && Fits(p, ts, p.toks[i][0]) && TripleOf(i) in ts
  {
    hide SearchPlan.Valid, SearchPlan.NoSpareToken, SearchPlan.NoSpareWord, SearchPlan.Attained, Ordinary, Rendered, GoesOn, TripleOf, Tidy, UnsafeRoot, WordOf, IsForm;
    OneTriple(p, i);
    var token, want := p.toks[i][0], Renderings(p, p.nodes[0].edges[p.toks[i][0]], p.toks[i][0], []);
    PlanSpelt(p);
    RootOf(p, i);
    NothingUnsafe(p, token);
    WordCased(p, i, 0);
    var c: byte := WordOf(i)[0] as int;
    assert IsForm(p.tokens, token, [c]) && |[c]| == 1 && IsAsciiLetter([c][0]);
    var room := FourTriples();
    forall t | t in ts ensures t in room {
      AmongFour(p, ts, t);
    }
    assert TripleOf(i) in room;
    assert Room(ts, want);
    assert Fits(p, ts, token);
    var roots: set<nat> :| RootsKept(p, ts, roots);
    assert OfRoot(p, token, TripleOf(i));
  }

  lemma {:induction false} NothingUnsafe(p: SearchPlan, token: nat)
    requires MissPlan(p) && token != 0
    ensures !UnsafeRoot(p, token)
  {
    hide SearchPlan.Valid, SearchPlan.NoSpareWord, SearchPlan.Attained, Ordinary;
    if b: byte :| IsContinuation(b) && b in p.tokens.bytes && p.tokens.bytes[b] == token {
      NoOpaqueToken(p, b);
      assert false;
    }
  }

  /** No pattern has an opaque byte, so no byte has a token of its own. */
  lemma {:induction false} NoOpaqueToken(p: SearchPlan, b: byte)
    requires MissPlan(p)
    ensures p.tokens.Of(Raw(b)) == 0
  {
    hide SearchPlan.Valid, SearchPlan.NoSpareWord, SearchPlan.Attained, Ordinary, Spelt;
    PlanSpelt(p);
    forall i: nat, j: nat | i < 22 && j < |p.Ps()[i]| ensures p.Ps()[i][j].Rune? {
      UnitUsed(p.Ps(), i, j);
    }
  }

  /** Exactly four triples are kept for ASCII text. */
  lemma {:induction false} FourKept(p: SearchPlan, kept: Option<seq<Triple>>)
    requires MissPlan(p) && AsciiKept(p, kept)
    ensures kept.Some? && |kept.value| == 4
  {
    hide SearchPlan.Valid, SearchPlan.NoSpareToken, SearchPlan.NoSpareWord, SearchPlan.Attained, Ordinary, Fits, WordOf, TripleOf, KeptTriples, AllRootsFit, AsciiRootsFit;
    var ts :| KeptTriples(p, ts) && kept == if ts != [] && !AllRootsFit(p, ts) && AsciiRootsFit(p, ts) then Some(ts) else None;
    forall t | t in ts ensures t in FourTriples() {
      AmongFour(p, ts, t);
    }
    LeadFits(p, ts, 0);
    LeadFits(p, ts, 2);
    LeadFits(p, ts, 3);
    LeadFits(p, ts, 4);
    KeptOnce(p, ts);
    Fold.Pigeons(ts, FourTriples());
    FourApart();
    Fold.Pigeons(FourTriples(), ts);
    WideLeftOut(p, ts);
    AsciiCovered(p, ts);
  }

  lemma {:induction false} KeptOnce(p: SearchPlan, ts: seq<Triple>)
    requires KeptTriples(p, ts)
    ensures forall i, j :: 0 <= i < j < |ts| ==> ts[i] != ts[j]
  {
    hide RootsKept;
  }

  lemma {:induction false} FourApart()
    ensures var ts := FourTriples(); forall i, j :: 0 <= i < j < |ts| ==> ts[i] != ts[j]
  {
    assert TripleOf(0)[0].value == 0x61 && TripleOf(2)[0].value == 0x64 && TripleOf(3)[0].value == 0x67 && TripleOf(4)[0].value == 0x6A;
  }

  /** Every root that ASCII text can reach is that of a leading word. */
  lemma {:induction false} AsciiCovered(p: SearchPlan, ts: seq<Triple>)
    requires MissPlan(p) && KeptTriples(p, ts)
    ensures AsciiRootsFit(p, ts)
  {
    hide SearchPlan.Valid, SearchPlan.NoSpareToken, SearchPlan.NoSpareWord, SearchPlan.Attained, Ordinary, Fits, WordOf, TripleOf, KeptTriples;
    HasRoot(p);
    forall b: byte | IsAscii(b) && p.tokens.Of(Rune(b)) in p.nodes[0].edges ensures Fits(p, ts, p.tokens.Of(Rune(b))) {
      var token := p.tokens.Of(Rune(b));
      RootEdge(p, token);
      var i := RootBegins(p, token);
      if i >= 5 {
        WidesShort(p, i);
        HasForm(p.tokens, token, b);
        WideForms(p, i, [b]);
        assert false;
      } else {
        if i == 1 {
          WordsLong(p, 0);
          WordsLong(p, 1);
          FirstTwo(p);
        }
        LeadFits(p, ts, if i == 1 then 0 else i);
      }
    }
  }

  // ----- no filter screens any text

  /** The first two bytes of a wide scalar, as an entry of a root filter. */
  function WidePair(i: nat): RootPair
    requires 5 <= i < 22
  {
    RootPair(Encode(Wide(i))[0], Encode(Wide(i))[1], false, false)
  }

  lemma {:induction false} WidePairsApart(i: nat, j: nat)
    requires 5 <= i < j < 22
    ensures WidePair(i) != WidePair(j)
  {
  }

  /** A filter for all patterns holds the pair of each wide scalar. */
  lemma {:induction false} HoldsPair(p: SearchPlan, f: RootFilter, i: nat)
    requires MissPlan(p) && Held(p.tokens, f) && Conservative(p, Filters(f, [])) && 5 <= i < 22
    ensures WidePair(i) in f.pairs
  {
    hide SearchPlan.Valid, SearchPlan.NoSpareToken, SearchPlan.NoSpareWord, SearchPlan.Attained, Ordinary, Wide;
    var h := Encode(Wide(i));
    WideStarts(p, i);
    assert Nominates(Filters(f, []), h, 0);
    NotAlone(p, f, h[0]);
    var k :| 0 <= k < |f.pairs| && PairMatches(f.pairs[k], h[0], h[1]);
    assert FoldsLetters(f.pairs[k]);
    HighLower(h[0]);
    HighLower(h[1]);
  }

  lemma {:induction false} HighLower(b: byte)
    ensures b >= 0x80 ==> Lower(b) >= 0x80
  {
  }

  lemma {:induction false} WideStarts(p: SearchPlan, i: nat)
    requires MissPlan(p) && 5 <= i < 22
    ensures var h := Encode(Wide(i)); |h| == 3 && h[0] >= 0x80 && h[1] >= 0x80 && Starts(p, h, 0, i)
  {
    hide SearchPlan.Valid, SearchPlan.NoSpareToken, SearchPlan.NoSpareWord, SearchPlan.Attained, Ordinary, Wide, Same;
    PlanSpelt(p);
    WidesShort(p, i);
    var h, m := Encode(Wide(i)), p.mode;
    WideUnits(m, Wide(i));
    assert Units(m, h)[0] == UnitAt(m, h, 0) == Rune(Wide(i));
    SameReflexive(m, Rune(Wide(i)));
    var a := p.Ps()[i];
    assert a[1..] == [] && a[0] == Rune(Wide(i));
    assert MatchEnd(m, h, 0, a) == MatchEnd(m, h, SizeAt(m, h, 0), a[1..]) == Some(SizeAt(m, h, 0));
  }

  /** No byte beyond ASCII is a spelling by itself. */
  lemma {:induction false} NotAlone(p: SearchPlan, f: RootFilter, b: byte)
    requires MissPlan(p) && Held(p.tokens, f) && b >= 0x80
    ensures b !in f.ones
  {
    hide SearchPlan.Valid, SearchPlan.NoSpareToken, SearchPlan.NoSpareWord, SearchPlan.Attained, Ordinary;
    NoOpaqueToken(p, b);
    if OneByteForm(p.tokens, b) {
      NotOneByte(p.tokens, b);
    }
  }

  lemma {:induction false} NotOneByte(tk: Tokens, b: byte)
    requires b >= 0x80 && tk.Of(Raw(b)) == 0
    ensures !OneByteForm(tk, b)
  {
    forall r | IsScalar(r) ensures Encode(r) != [b] {
    }
  }

  /** So there is none: the wide scalars have too many pairs, and no triples. */
  lemma {:induction false} NoFilters(p: SearchPlan, fs: Filters)
    requires MissPlan(p) && Held(p.tokens, fs.root) && (fs.triples != [] ==> AllRootsFit(p, fs.triples))
    requires fs.Usable() ==> Conservative(p, fs)
    ensures !fs.Usable()
  {
    hide SearchPlan.Valid, SearchPlan.NoSpareToken, SearchPlan.NoSpareWord, SearchPlan.Attained, Ordinary, AllRootsFit, Conservative, LettersFold, Wide, WidePair;
    WideLeftOut(p, fs.triples);
    if fs.Usable() {
      assert fs == Filters(fs.root, []);
      var pairs := seq(17, k requires 0 <= k < 17 => WidePair(k + 5));
      forall i, j | 0 <= i < j < 17 ensures pairs[i] != pairs[j] {
        WidePairsApart(i + 5, j + 5);
      }
      forall c | c in pairs ensures c in fs.root.pairs {
        var k :| 0 <= k < 17 && pairs[k] == c;
        HoldsPair(p, fs.root, k + 5);
      }
      Fold.Pigeons(pairs, fs.root.pairs);
      assert false;
    }
  }
}
