/** What the triples of a root are, in terms of the patterns: the first three bytes of their
    spellings. They are sure when nothing ends before the third byte. */
module TripleMeaning {
  import opened Utf8
  import opened Spec
  import opened Automaton
  import opened Lexer
  import opened Links
  import opened Plan
  import opened Search
  import opened AsciiSkip
  import opened Decoded
  import opened RootFilters
  import opened Rooms
  import opened TripleFilters

  /** One spelling for each token. */
  ghost predicate SpeltAs(tk: Tokens, x: Word, sp: seq<Bytes>) {
    |sp| == |x| && forall k :: 0 <= k < |sp| ==> IsForm(tk, x[k], sp[k]) && |sp[k]| > 0
  }

  ghost function CellsSpelt(sp: seq<Bytes>): (cells: seq<Cell>)
    requires forall k :: 0 <= k < |sp| ==> |sp[k]| > 0
  {
    if sp == [] then [] else CellsOf(sp[0]) + CellsSpelt(sp[1..])
  }

  /** No pattern with a unit is a suffix of the word. */
  ghost predicate NothingEnds(p: SearchPlan, x: Word)
    reads p
  {
    forall j :: 0 <= j < |p.toks| && p.toks[j] != [] ==> !IsSuffix(p.toks[j], x)
  }

  /** Pattern `i` runs through the word `w`; from the last token of `w` up to its token `k`
      it is spelled `sp`. */
  ghost predicate Through(p: SearchPlan, w: Word, i: nat, k: nat, sp: seq<Bytes>)
    requires w != []
    reads p
  {
    i < |p.toks| && |w| <= k <= |p.toks[i]| && w <= p.toks[i] && SpeltAs(p.tokens, p.toks[i][|w| - 1..k], sp)
  }

  /** Nothing ends while fewer than three bytes are known. */
  ghost predicate Sure(p: SearchPlan, w: Word, prefix: seq<Cell>)
    requires w != []
    reads p
  {
    forall i: nat, k: nat, sp: seq<Bytes> :: Through(p, w, i, k, sp) && |prefix + CellsSpelt(sp)| < 3 ==> NothingEnds(p, p.toks[i][..k])
  }

  /** The triple is the first three bytes of a spelling. */
  ghost predicate Shown(p: SearchPlan, w: Word, prefix: seq<Cell>, t: Triple)
    requires w != []
    reads p
  {
    exists i: nat, k: nat, sp: seq<Bytes> :: Through(p, w, i, k, sp) && ShownBy(prefix, sp, t)
  }

  ghost predicate ShownBy(prefix: seq<Cell>, sp: seq<Bytes>, t: Triple)
    requires forall k :: 0 <= k < |sp| ==> |sp[k]| > 0
  {
    var cells := prefix + CellsSpelt(sp);
    |cells| >= 3 && t == cells[..3]
  }

  lemma {:induction false} FirstSpelt(sp: seq<Bytes>)
    requires sp != [] && forall k :: 0 <= k < |sp| ==> |sp[k]| > 0
    ensures CellsSpelt(sp) == CellsOf(sp[0]) + CellsSpelt(sp[1..]) && CellsSpelt([sp[0]]) == CellsOf(sp[0])
  {
    var one: seq<Bytes> := [sp[0]];
    assert one[1..] == [];
  }

  /** A pattern that goes on through the child is spelled by one more form. */
  lemma {:induction false} ThroughChild(p: SearchPlan, w: Word, t: nat, i: nat, k: nat, sp: seq<Bytes>)
    requires w != [] && |w| < k && Through(p, w, i, k, sp)
    ensures |sp| > 1 && |w| < |p.toks[i]| && (p.toks[i][|w|] == t ==> Through(p, w + [t], i, k, sp[1..]))
    ensures IsForm(p.tokens, Last(w), sp[0]) && |sp[0]| > 0
  {
    var x := p.toks[i][|w| - 1..k];
    assert x[0] == p.toks[i][|w| - 1] == w[|w| - 1];
    assert x[1..] == p.toks[i][|w|..k];
    if p.toks[i][|w|] == t {
      assert (w + [t])[..|w|] == w;
      assert p.toks[i][|w + [t]| - 1..k] == x[1..];
    }
  }

  lemma {:induction false} ThroughHere(p: SearchPlan, w: Word, i: nat, sp: seq<Bytes>)
    requires w != [] && Through(p, w, i, |w|, sp)
    ensures |sp| == 1 && IsForm(p.tokens, Last(w), sp[0]) && |sp[0]| > 0 && p.toks[i][..|w|] == w
  {
    var x := p.toks[i][|w| - 1..|w|];
    assert x == [w[|w| - 1]];
  }

  lemma {:induction false} HereThrough(p: SearchPlan, w: Word, i: nat, f: Bytes)
    requires w != [] && i < |p.toks| && w <= p.toks[i] && IsForm(p.tokens, Last(w), f) && |f| > 0
    ensures Through(p, w, i, |w|, [f])
  {
    assert p.toks[i][|w| - 1..|w|] == [w[|w| - 1]];
  }

  lemma {:induction false} ChildThrough(p: SearchPlan, w: Word, t: nat, i: nat, k: nat, sp: seq<Bytes>, f: Bytes)
    requires w != [] && Through(p, w + [t], i, k, sp) && IsForm(p.tokens, Last(w), f) && |f| > 0
    ensures Through(p, w, i, k, [f] + sp)
  {
    var v := w + [t];
    assert w <= v <= p.toks[i];
    assert p.toks[i][|w| - 1..k] == [w[|w| - 1]] + p.toks[i][|v| - 1..k];
  }

  /** What the plan says of a node and its children. */
  lemma {:induction false} NodeFacts(p: SearchPlan, state: nat)
    requires p.Valid() && p.NoSpareWord([]) && state < |p.nodes| && |p.words| == |p.nodes| && p.words[state] != []
    ensures exists i: nat :: i < |p.toks| && p.words[state] <= p.toks[i]
    ensures p.nodes[state].output == NoOutput <==> NothingEnds(p, p.words[state])
  {
    hide AllRows, TokensAreClasses, IsFailure, Spells, SearchPlan.NoSpareWord;
    assert NodeLinked(p.nodes, p.words, p.ix, p.toks, state);
    assert p.words[state] in p.ix;
    var i := BeginsOne(p, p.words[state]);
    if p.nodes[state].output.Output? {
      var out := p.nodes[state].output;
      assert IsSuffix(p.toks[out.pattern], p.words[state]);
    }
  }

  /** The children of a node are the tokens that go on with its word in some pattern. */
  lemma {:induction false} EdgeMeans(p: SearchPlan, state: nat, t: nat)
    requires p.Valid() && p.NoSpareWord([]) && state < |p.nodes|
    ensures |p.words| == |p.nodes|
    ensures t in p.nodes[state].edges <==> exists i: nat :: i < |p.toks| && p.words[state] + [t] <= p.toks[i]
    ensures t in p.nodes[state].edges ==>
              var child := p.nodes[state].edges[t]; child < |p.nodes| && p.words[child] == p.words[state] + [t]
  {
    hide AllRows, TokensAreClasses, NodeLinked, Spells, SearchPlan.NoSpareWord;
    var v := p.words[state] + [t];
    if t in p.nodes[state].edges {
      EdgeChild(p.nodes, p.words, p.ix, state, t);
      var i := BeginsOne(p, v);
    }
    if i: nat :| i < |p.toks| && v <= p.toks[i] {
      assert p.toks[i] in p.ix && p.toks[i][..|v|] == v;
      PrefixWord(p.words, p.ix, p.toks[i], |v|);
    }
  }

  ghost predicate NodeFor(p: SearchPlan, state: nat, token: nat)
    reads p
  {
    state < |p.nodes| && |p.words| == |p.nodes| && p.words[state] != [] && token == Last(p.words[state])
  }

  lemma {:induction false} FormNonempty(tk: Tokens, token: nat, f: Bytes)
    requires IsForm(tk, token, f)
    ensures |f| > 0
  {
  }

  /** The token of a node has a spelling. */
  lemma {:induction false} NodeHasForm(p: SearchPlan, state: nat, token: nat) returns (f: Bytes)
    requires p.Valid() && p.NoSpareWord([]) && NodeFor(p, state, token)
    ensures IsForm(p.tokens, token, f) && |f| > 0
  {
    hide AllRows, TokensAreClasses, AllLinked, SearchPlan.NoSpareWord;
    NodeFacts(p, state);
    var w := p.words[state];
    var i: nat :| i < |p.toks| && w <= p.toks[i];
    var k: nat := |w| - 1;
    assert Spells(p.mode, p.tokens, p.Ps()[i], p.toks[i]);
    var u := p.Ps()[i][k];
    SameReflexive(p.mode, u);
    assert w[k] == p.toks[i][k] == p.tokens.Of(u) == token;
    UnitScalar(p, i, k);
    match u {
      case Rune(r) =>
        f := Encode(r);
      case Raw(b) =>
        f := [b];
    }
  }

  lemma {:induction false} UnitScalar(p: SearchPlan, i: nat, k: nat)
    requires p.Valid() && i < |p.Ps()| && k < |p.Ps()[i]|
    ensures p.Ps()[i][k].Rune? ==> IsScalar(p.Ps()[i][k].rune)
  {
    hide AllRows, TokensAreClasses, AllLinked, Spells;
  }

  lemma {:induction false} CellsOn(prefix: seq<Cell>, sp: seq<Bytes>)
    requires sp != [] && forall k :: 0 <= k < |sp| ==> |sp[k]| > 0
    ensures prefix + CellsSpelt(sp) == (prefix + CellsOf(sp[0])) + CellsSpelt(sp[1..])
  {
    FirstSpelt(sp);
  }

  lemma {:induction false} GoesOnSure(p: SearchPlan, state: nat, token: nat, prefix: seq<Cell>, i: nat, k: nat, sp: seq<Bytes>)
    requires p.Valid() && p.NoSpareWord([]) && NodeFor(p, state, token) && |prefix| < 3 && GoesOn(p, state, token, prefix)
    requires Through(p, p.words[state], i, k, sp) && |prefix + CellsSpelt(sp)| < 3
    ensures NothingEnds(p, p.toks[i][..k])
    decreases 3 - |prefix|
  {
    hide SearchPlan.Valid, SearchPlan.NoSpareWord, IsForm, CellsOf, NothingEnds;
    var w := p.words[state];
    if k == |w| {
      ThroughHere(p, w, i, sp);
      FirstSpelt(sp);
      assert FormGoesOn(p, state, prefix, sp[0]);
      NodeFacts(p, state);
    } else {
      var t := p.toks[i][|w|];
      ThroughChild(p, w, t, i, k, sp);
      CellsOn(prefix, sp);
      assert FormGoesOn(p, state, prefix, sp[0]);
      assert w + [t] <= p.toks[i];
      EdgeMeans(p, state, t);
      var child := p.nodes[state].edges[t];
      GoesOnSure(p, child, t, prefix + CellsOf(sp[0]), i, k, sp[1..]);
    }
  }

  lemma {:induction false} SureGoesOn(p: SearchPlan, state: nat, token: nat, prefix: seq<Cell>)
    requires p.Valid() && p.NoSpareWord([]) && NodeFor(p, state, token) && |prefix| < 3 && Sure(p, p.words[state], prefix)
    ensures GoesOn(p, state, token, prefix)
    decreases 3 - |prefix|
  {
    hide SearchPlan.Valid, SearchPlan.NoSpareWord, IsForm, CellsOf, NothingEnds, Sure, Through;
    var f0 := NodeHasForm(p, state, token);
    forall f | IsForm(p.tokens, token, f) ensures FormGoesOn(p, state, prefix, f) {
      FormNonempty(p.tokens, token, f);
      if |prefix + CellsOf(f)| < 3 {
        SureSilent(p, state, token, prefix, f);
        forall t | t in p.nodes[state].edges ensures GoesOn(p, p.nodes[state].edges[t], t, prefix + CellsOf(f)) {
          EdgeMeans(p, state, t);
          SureBelow(p, p.words[state], prefix, f, t);
          SureGoesOn(p, p.nodes[state].edges[t], t, prefix + CellsOf(f));
        }
      }
    }
  }

  /** Behind a short spelling nothing ends, and something follows. */
  lemma {:induction false} SureSilent(p: SearchPlan, state: nat, token: nat, prefix: seq<Cell>, f: Bytes)
    requires p.Valid() && p.NoSpareWord([]) && NodeFor(p, state, token) && Sure(p, p.words[state], prefix)
    requires IsForm(p.tokens, token, f) && |f| > 0 && |prefix + CellsOf(f)| < 3
    ensures p.nodes[state].output == NoOutput && p.nodes[state].edges != map[]
  {
    hide SearchPlan.Valid, SearchPlan.NoSpareWord, IsForm, CellsOf;
    var w := p.words[state];
    NodeFacts(p, state);
    var i: nat :| i < |p.toks| && w <= p.toks[i];
    HereThrough(p, w, i, f);
    FirstSpelt([f]);
    assert p.toks[i][..|w|] == w;
    assert !IsSuffix(p.toks[i], w);
    var t := p.toks[i][|w|];
    assert w + [t] <= p.toks[i];
    EdgeMeans(p, state, t);
  }

  lemma {:induction false} SureBelow(p: SearchPlan, w: Word, prefix: seq<Cell>, f: Bytes, t: nat)
    requires w != [] && Sure(p, w, prefix) && IsForm(p.tokens, Last(w), f) && |f| > 0
    ensures Sure(p, w + [t], prefix + CellsOf(f))
  {
    hide IsForm, CellsOf, NothingEnds;
    forall i: nat, k: nat, sp: seq<Bytes> | Through(p, w + [t], i, k, sp) && |prefix + CellsOf(f) + CellsSpelt(sp)| < 3
      ensures NothingEnds(p, p.toks[i][..k])
    {
      ChildThrough(p, w, t, i, k, sp, f);
      CellsOn(prefix, [f] + sp);
      assert ([f] + sp)[1..] == sp;
    }
  }

  /** Three bytes are sure to follow exactly when nothing ends before them. */
  lemma {:induction false} GoesOnMeans(p: SearchPlan, state: nat, token: nat, prefix: seq<Cell>)
    requires p.Valid() && p.NoSpareWord([]) && NodeFor(p, state, token) && |prefix| < 3
    ensures GoesOn(p, state, token, prefix) <==> Sure(p, p.words[state], prefix)
  {
    hide SearchPlan.Valid, SearchPlan.NoSpareWord, GoesOn, NothingEnds;
    if GoesOn(p, state, token, prefix) {
      forall i: nat, k: nat, sp: seq<Bytes> | Through(p, p.words[state], i, k, sp) && |prefix + CellsSpelt(sp)| < 3
        ensures NothingEnds(p, p.toks[i][..k])
      {
        GoesOnSure(p, state, token, prefix, i, k, sp);
      }
    }
    if Sure(p, p.words[state], prefix) {
      SureGoesOn(p, state, token, prefix);
    }
  }

  lemma {:induction false} RenderedShown(p: SearchPlan, state: nat, token: nat, prefix: seq<Cell>, t: Triple)
    requires p.Valid() && p.NoSpareWord([]) && NodeFor(p, state, token) && |prefix| < 3 && Rendered(p, state, token, prefix, t)
    ensures Shown(p, p.words[state], prefix, t)
    decreases 3 - |prefix|
  {
    hide SearchPlan.Valid, SearchPlan.NoSpareWord, IsForm, CellsOf;
    var w := p.words[state];
    var f :| IsForm(p.tokens, token, f) && FormRendered(p, state, prefix, f, t);
    var cells := prefix + CellsOf(f);
    if |cells| >= 3 {
      NodeFacts(p, state);
      var i: nat :| i < |p.toks| && w <= p.toks[i];
      HereThrough(p, w, i, f);
      FirstSpelt([f]);
      assert ShownBy(prefix, [f], t);
    } else {
      var next :| next in p.nodes[state].edges && Rendered(p, p.nodes[state].edges[next], next, cells, t);
      EdgeMeans(p, state, next);
      RenderedShown(p, p.nodes[state].edges[next], next, cells, t);
      var i: nat, k: nat, sp: seq<Bytes> :| Through(p, w + [next], i, k, sp) && ShownBy(cells, sp, t);
      ChildThrough(p, w, next, i, k, sp, f);
      OneMoreForm(prefix, f, sp, t);
      assert Through(p, w, i, k, [f] + sp) && ShownBy(prefix, [f] + sp, t);
    }
  }

  lemma {:induction false} OneMoreForm(prefix: seq<Cell>, f: Bytes, sp: seq<Bytes>, t: Triple)
    requires |f| > 0 && forall k :: 0 <= k < |sp| ==> |sp[k]| > 0
    ensures forall k :: 0 <= k < |[f] + sp| ==> |([f] + sp)[k]| > 0
    ensures ShownBy(prefix + CellsOf(f), sp, t) <==> ShownBy(prefix, [f] + sp, t)
  {
    CellsOn(prefix, [f] + sp);
    assert ([f] + sp)[1..] == sp;
  }

  lemma {:induction false} ShownRendered(p: SearchPlan, state: nat, token: nat, prefix: seq<Cell>, t: Triple, i: nat, k: nat, sp: seq<Bytes>)
    requires p.Valid() && p.NoSpareWord([]) && NodeFor(p, state, token) && |prefix| < 3
    requires Through(p, p.words[state], i, k, sp) && ShownBy(prefix, sp, t)
    ensures Rendered(p, state, token, prefix, t)
    decreases 3 - |prefix|
  {
    hide SearchPlan.Valid, SearchPlan.NoSpareWord, IsForm, CellsOf, NothingEnds;
    var w := p.words[state];
    if k == |w| {
      ThroughHere(p, w, i, sp);
      FirstSpelt(sp);
      assert FormRendered(p, state, prefix, sp[0], t);
    } else {
      var next := p.toks[i][|w|];
      ThroughChild(p, w, next, i, k, sp);
      CellsOn(prefix, sp);
      var cells := prefix + CellsOf(sp[0]);
      if |cells| >= 3 {
        assert (cells + CellsSpelt(sp[1..]))[..3] == cells[..3];
      } else {
        assert w + [next] <= p.toks[i];
        EdgeMeans(p, state, next);
        ShownRendered(p, p.nodes[state].edges[next], next, cells, t, i, k, sp[1..]);
      }
      assert FormRendered(p, state, prefix, sp[0], t);
    }
  }

  /** The triples of a node are the first three bytes of the spellings through it. */
  lemma {:induction false} RenderedMeans(p: SearchPlan, state: nat, token: nat, prefix: seq<Cell>, t: Triple)
    requires p.Valid() && p.NoSpareWord([]) && NodeFor(p, state, token) && |prefix| < 3
    ensures Rendered(p, state, token, prefix, t) <==> Shown(p, p.words[state], prefix, t)
  {
    hide SearchPlan.Valid, SearchPlan.NoSpareWord, Rendered, ShownBy;
    if Rendered(p, state, token, prefix, t) {
      RenderedShown(p, state, token, prefix, t);
    }
    if Shown(p, p.words[state], prefix, t) {
      var i: nat, k: nat, sp: seq<Bytes> :| Through(p, p.words[state], i, k, sp) && ShownBy(prefix, sp, t);
      ShownRendered(p, state, token, prefix, t, i, k, sp);
    }
  }

  // ----- which roots have triples

  /** A root has triples beside `ts` exactly when some pattern starts with it, an ASCII
      letter is one of its spellings, no opaque continuation byte is, nothing ends before
      the third byte, and sixteen places hold `ts` and the first three bytes of all
      spellings. */
  lemma {:induction false} FitsMeans(p: SearchPlan, ts: seq<Triple>, token: nat)
    requires p.Valid() && p.NoSpareWord([])
    ensures Fits(p, ts, token) <==>
              && token != 0 && (exists i: nat :: i < |p.toks| && p.toks[i] != [] && p.toks[i][0] == token)
              && (exists b: byte :: LetterOf(p, token, b))
              && (forall b: byte :: 0x80 <= b < 0xC0 ==> p.tokens.Of(Raw(b)) != token)
              && Sure(p, [token], [])
              && RoomShown(p, ts, token)
  {
    hide SearchPlan.Valid, SearchPlan.NoSpareWord, GoesOn, Sure, Shown, IsForm, Rendered, UnsafeRoot, LetterOf;
    RootStart(p, token);
    if token in p.nodes[0].edges {
      LetterMeans(p, token);
      SafeMeans(p, token);
      var state := p.nodes[0].edges[token];
      GoesOnMeans(p, state, token, []);
      forall t: Triple ensures t in Renderings(p, state, token, []) <==> Shown(p, [token], [], t) {
        RenderedMeans(p, state, token, [], t);
      }
      RoomMeans(p, ts, token, Renderings(p, state, token, []));
    }
  }

  lemma {:induction false} RoomMeans(p: SearchPlan, ts: seq<Triple>, token: nat, want: iset<Triple>)
    requires forall t: Triple :: t in want <==> Shown(p, [token], [], t)
    ensures Room(ts, want) <==> RoomShown(p, ts, token)
  {
    hide Shown;
    if room: seq<Triple> :| |room| <= 16 && More(ts, room) && forall t :: t in want ==> t in room {
      assert HoldsShown(p, ts, token, room);
    }
    if room: seq<Triple> :| HoldsShown(p, ts, token, room) {
      RoomWithin(ts, want, room);
    }
  }

  ghost predicate HoldsShown(p: SearchPlan, ts: seq<Triple>, token: nat, room: seq<Triple>)
    reads p
  {
    |room| <= 16 && More(ts, room) && forall t: Triple :: Shown(p, [token], [], t) ==> t in room
  }

  /** Sixteen places hold the list and the first three bytes of all spellings of a root. */
  ghost predicate RoomShown(p: SearchPlan, ts: seq<Triple>, token: nat)
    reads p
  {
    exists room: seq<Triple> :: HoldsShown(p, ts, token, room)
  }

  lemma {:induction false} RootStart(p: SearchPlan, token: nat)
    requires p.Valid() && p.NoSpareWord([])
    ensures |p.nodes| > 0 && (token in p.nodes[0].edges <==> exists i: nat :: i < |p.toks| && p.toks[i] != [] && p.toks[i][0] == token)
    ensures token in p.nodes[0].edges ==> 0 < token < p.stride && NodeFor(p, p.nodes[0].edges[token], token) && p.words[p.nodes[0].edges[token]] == [token]
  {
    hide AllRows, TokensAreClasses, NodeLinked, Spells, SearchPlan.NoSpareWord;
    RootEdge(p, token);
    if token in p.nodes[0].edges {
      var i := BeginsOne(p, [token]);
      assert p.toks[i][0] == [token][0];
      RootOf(p, i);
    }
    if i: nat :| i < |p.toks| && p.toks[i] != [] && p.toks[i][0] == token {
      RootOf(p, i);
    }
  }

  lemma {:induction false} LetterMeans(p: SearchPlan, token: nat)
    requires token != 0
    ensures (exists f :: IsForm(p.tokens, token, f) && |f| == 1 && IsAsciiLetter(f[0])) <==> exists b: byte :: LetterOf(p, token, b)
  {
    if f :| IsForm(p.tokens, token, f) && |f| == 1 && IsAsciiLetter(f[0]) {
      assert LetterOf(p, token, f[0]);
    }
    if b: byte :| LetterOf(p, token, b) {
      assert Encode(b) == [b];
      assert IsForm(p.tokens, token, [b]) && |[b]| == 1 && IsAsciiLetter([b][0]);
    }
  }

  /** The ASCII letter is read as the token. */
  ghost predicate LetterOf(p: SearchPlan, token: nat, b: byte)
    reads p
  {
    ('A' as int <= b <= 'Z' as int || 'a' as int <= b <= 'z' as int) && (p.tokens.Of(Rune(b)) == token || p.tokens.Of(Raw(b)) == token)
  }

  lemma {:induction false} SafeMeans(p: SearchPlan, token: nat)
    requires token != 0
    ensures !UnsafeRoot(p, token) <==> forall b: byte :: 0x80 <= b < 0xC0 ==> p.tokens.Of(Raw(b)) != token
  {
    if b: byte :| 0x80 <= b < 0xC0 && p.tokens.Of(Raw(b)) == token {
      assert IsContinuation(b) && b in p.tokens.bytes && p.tokens.bytes[b] == token;
    }
    if b: byte :| IsContinuation(b) && b in p.tokens.bytes && p.tokens.bytes[b] == token {
      assert p.tokens.Of(Raw(b)) == token;
    }
  }

  /** Where three bytes are sure there is a triple. */
  lemma {:induction false} SomeTriple(p: SearchPlan, state: nat, token: nat, prefix: seq<Cell>) returns (t: Triple)
    requires |prefix| < 3 && GoesOn(p, state, token, prefix)
    ensures Rendered(p, state, token, prefix, t)
    decreases 3 - |prefix|
  {
    hide CellsOf;
    var f :| IsForm(p.tokens, token, f);
    assert FormGoesOn(p, state, prefix, f);
    var cells := prefix + CellsOf(f);
    if |cells| >= 3 {
      t := cells[..3];
    } else {
      var next :| next in p.nodes[state].edges;
      t := SomeTriple(p, p.nodes[state].edges[next], next, cells);
    }
    assert FormRendered(p, state, prefix, f, t);
  }

  /** Some root fits. */
  ghost predicate SomeFits(p: SearchPlan, ts: seq<Triple>)
    reads p
  {
    exists token: nat :: Fits(p, ts, token)
  }

  lemma {:induction false} KeptSome(p: SearchPlan, ts: seq<Triple>)
    requires KeptTriples(p, ts)
    ensures ts != [] <==> SomeFits(p, ts)
  {
    hide GoesOn, Rendered, IsForm, UnsafeRoot, Tidy, Room, Fits;
    var roots: set<nat> :| RootsKept(p, ts, roots);
    if token: nat :| Fits(p, ts, token) {
      FitsGoOn(p, ts, token);
      var t := SomeTriple(p, p.nodes[0].edges[token], token, []);
      assert OfRoot(p, token, t);
    }
    if ts != [] {
      assert ts[0] in ts;
      var root :| root in roots && OfRoot(p, root, ts[0]);
    }
  }

  lemma {:induction false} FitsGoOn(p: SearchPlan, ts: seq<Triple>, token: nat)
    requires Fits(p, ts, token)
    ensures |p.nodes| > 0 && token in p.nodes[0].edges && GoesOn(p, p.nodes[0].edges[token], token, [])
  {
  }

  /** The triples for ASCII text are kept exactly when some root has triples, every ASCII
      character that starts a pattern has them, and some pattern starts with a root that
      has none. */
  lemma {:induction false} KeptMeans(p: SearchPlan, kept: Option<seq<Triple>>)
    requires p.Valid() && p.NoSpareWord([]) && AsciiKept(p, kept)
    ensures exists ts :: KeptTriples(p, ts) && (kept.Some? ==> kept.value == ts) &&
              (kept.Some? <==>
                && SomeFits(p, ts) && (forall b: byte :: AsciiStarts(p, b) ==> Fits(p, ts, p.tokens.Of(Rune(b))))
                && exists i: nat :: i < |p.toks| && p.toks[i] != [] && !Fits(p, ts, p.toks[i][0]))
  {
    hide SearchPlan.Valid, SearchPlan.NoSpareWord, Fits, KeptTriples, AllRootsFit, AsciiRootsFit, SomeFits, AsciiStarts;
    var ts :| KeptTriples(p, ts) && kept == if ts != [] && !AllRootsFit(p, ts) && AsciiRootsFit(p, ts) then Some(ts) else None;
    KeptSome(p, ts);
    LeftOutMeans(p, ts);
    CoveredMeans(p, ts);
  }

  lemma {:induction false} LeftOutMeans(p: SearchPlan, ts: seq<Triple>)
    requires p.Valid() && p.NoSpareWord([])
    ensures !AllRootsFit(p, ts) <==> exists i: nat :: i < |p.toks| && p.toks[i] != [] && !Fits(p, ts, p.toks[i][0])
  {
    hide SearchPlan.Valid, SearchPlan.NoSpareWord, Fits;
    RootStart(p, 0);
    forall token: nat ensures token in p.nodes[0].edges <==> exists i: nat :: i < |p.toks| && p.toks[i] != [] && p.toks[i][0] == token {
      RootStart(p, token);
    }
    if i: nat :| i < |p.toks| && p.toks[i] != [] && !Fits(p, ts, p.toks[i][0]) {
      RootStart(p, p.toks[i][0]);
    }
  }

  lemma {:induction false} CoveredMeans(p: SearchPlan, ts: seq<Triple>)
    requires p.Valid() && p.NoSpareWord([])
    ensures AsciiRootsFit(p, ts) <==> forall b: byte :: AsciiStarts(p, b) ==> Fits(p, ts, p.tokens.Of(Rune(b)))
  {
    hide SearchPlan.Valid, SearchPlan.NoSpareWord, Fits, AsciiStarts;
    RootStart(p, 0);
    forall b: byte | IsAscii(b) ensures p.tokens.Of(Rune(b)) in p.nodes[0].edges <==> AsciiStarts(p, b) {
      StartIsRoot(p, b);
    }
    forall b: byte | AsciiStarts(p, b) ensures IsAscii(b) {
      StartsAsAscii(p, b);
    }
  }
}
