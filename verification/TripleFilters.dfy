/** The three-byte filter: for each root with an ASCII letter spelling, every way its
    patterns' first three source bytes can read, found by walking the trie. */
module TripleFilters {
  import opened Utf8
  import opened Spec
  import opened Automaton
  import opened Lexer
  import opened Links
  import opened Plan
  import opened Search
  import opened AsciiSkip
  import opened Decoded
  import opened RootFilters
  import opened Rooms
  import Fold

  const MAX_TRIPLES := 16

  /** A byte to compare with; one that folds is compared with the case bit set. */
  datatype Cell = Cell(value: byte, fold: bool) {
    /** The case bit of a folding cell is set. */
    predicate Marked() {
      fold ==> Lower(value) == value
    }
  }

  /** The cells compiled from spellings, where only letters fold. */
  predicate AllMarked(ts: seq<Triple>) {
    forall k, j :: 0 <= k < |ts| && 0 <= j < 3 ==> ts[k][j].Marked()
  }

  predicate MarkedCells(cells: seq<Cell>) {
    forall j :: 0 <= j < |cells| ==> cells[j].Marked()
  }

  type Triple = t: seq<Cell> | |t| == 3 witness [Cell(0, false), Cell(0, false), Cell(0, false)]

  predicate CellsAt(cells: seq<Cell>, h: Bytes, q: nat) {
    q + |cells| <= |h| && forall j :: 0 <= j < |cells| ==> Folded(cells[j].fold, cells[j].value, h[q + j])
  }

  predicate AdmitsTriple(triples: seq<Triple>, h: Bytes, q: nat) {
    exists k :: 0 <= k < |triples| && CellsAt(triples[k], h, q)
  }

  lemma {:induction false} MoreAdmits(a: seq<Triple>, b: seq<Triple>, h: Bytes, q: nat)
    requires More(a, b) && AdmitsTriple(a, h, q)
    ensures AdmitsTriple(b, h, q)
  {
    var k :| 0 <= k < |a| && CellsAt(a[k], h, q);
    assert a[k] in b;
  }

  function AddTriple(ts: seq<Triple>, t: Triple): (r: Option<seq<Triple>>)
    ensures r.Some? ==> More(ts, r.value) && t in r.value
    ensures r.Some? && AllMarked(ts) && MarkedCells(t) ==> AllMarked(r.value)
  {
    if t in ts then Some(ts) else if |ts| == MAX_TRIPLES then None else Some(ts + [t])
  }

  /** The cells of a spelling. */
  function CellsOf(form: Bytes): (cells: seq<Cell>)
    requires |form| > 0
    ensures |cells| == |form| && MarkedCells(cells)
    ensures forall h: Bytes, q: nat :: q + |form| <= |h| && h[q..q + |form|] == form ==> CellsAt(cells, h, q)
  {
    var c := Compact(form);
    var cells := seq(|form|, j requires 0 <= j < |form| => Cell(c.0[j], c.1));
    assert forall h: Bytes, q: nat :: q + |form| <= |h| && h[q..q + |form|] == form ==> CellsAt(cells, h, q) by {
      forall h: Bytes, q: nat | q + |form| <= |h| && h[q..q + |form|] == form ensures CellsAt(cells, h, q) {
        forall j | 0 <= j < |form| ensures Folded(cells[j].fold, cells[j].value, h[q + j]) {
          assert h[q..q + |form|][j] == h[q + j];
        }
      }
    }
    cells
  }

  lemma {:induction false} CellsJoin(a: seq<Cell>, b: seq<Cell>, h: Bytes, q: nat)
    requires CellsAt(a, h, q) && CellsAt(b, h, q + |a|)
    ensures CellsAt(a + b, h, q)
  {
    forall j | 0 <= j < |a + b| ensures Folded((a + b)[j].fold, (a + b)[j].value, h[q + j]) {
      if j >= |a| {
        assert h[q + |a| + (j - |a|)] == h[q + j];
      }
    }
  }

  lemma {:induction false} CellsCut(a: seq<Cell>, n: nat, h: Bytes, q: nat)
    requires CellsAt(a, h, q) && n <= |a|
    ensures CellsAt(a[..n], h, q)
  {
  }

  /** Pattern `i` is spelled at `q`; its first `k` units fill the bytes that `prefix`
      describes, and its word runs through the node `state` with its unit `k`. */
  ghost predicate Reaching(p: SearchPlan, h: Bytes, q: nat, i: nat, k: nat, state: nat, prefix: seq<Cell>)
    reads p
  {
    && Starts(p, h, q, i) && k < |p.Ps()[i]| && i < |p.toks| && |p.toks[i]| == |p.Ps()[i]|
    && state < |p.words| && p.words[state] == p.toks[i][..k + 1]
    && MatchEnd(p.mode, h, q, p.Ps()[i][..k]) == Some(q + |prefix|) && CellsAt(prefix, h, q)
  }

  /** Every spelling that reaches `state` behind `prefix` is admitted. */
  ghost predicate Expanded(p: SearchPlan, ts: seq<Triple>, state: nat, prefix: seq<Cell>)
    reads p
  {
    forall h: Bytes, q: nat, i: nat, k: nat :: Reaching(p, h, q, i, k, state, prefix) ==> AdmitsTriple(ts, h, q)
  }

  lemma {:induction false} MoreExpanded(p: SearchPlan, a: seq<Triple>, b: seq<Triple>, state: nat, prefix: seq<Cell>)
    requires More(a, b) && Expanded(p, a, state, prefix)
    ensures Expanded(p, b, state, prefix)
  {
    forall h: Bytes, q: nat, i: nat, k: nat | Reaching(p, h, q, i, k, state, prefix) ensures AdmitsTriple(b, h, q) {
      MoreAdmits(a, b, h, q);
    }
  }

  /** One more unit of a match. */
  lemma {:induction false} MatchUnit(m: Mode, h: Bytes, q: nat, a: Pattern, k: nat)
    requires m.Valid() && q <= |h| && k < |a| && MatchEnd(m, h, q, a).Some?
    ensures MatchEnd(m, h, q, a[..k]).Some?
    ensures var e := MatchEnd(m, h, q, a[..k]).value;
            && e < |h| && Same(m, UnitAt(m, h, e), a[k])
            && MatchEnd(m, h, q, a[..k + 1]) == Some(e + SizeAt(m, h, e))
    decreases |a|
  {
    hide Same, FormLen, FormRune, UnitAt, SizeAt;
    if k > 0 {
      assert a[..k][1..] == a[1..][..k - 1] && a[..k + 1][1..] == a[1..][..k];
      MatchUnit(m, h, q + SizeAt(m, h, q), a[1..], k - 1);
    } else {
      assert a[..0] == [] && a[..1][1..] == [];
    }
  }

  /** The unit a reaching spelling is at. */
  lemma {:induction false} ReachingUnit(p: SearchPlan, h: Bytes, q: nat, i: nat, k: nat, state: nat, prefix: seq<Cell>)
    requires p.Valid() && Reaching(p, h, q, i, k, state, prefix)
    ensures var e := q + |prefix|;
            && e < |h| && p.words[state] != [] && TokenAt(p, h, e) == Last(p.words[state]) != 0
            && MatchEnd(p.mode, h, q, p.Ps()[i][..k + 1]) == Some(e + SizeAt(p.mode, h, e))
  {
    hide AllLinked, AllRows, TokensAreClasses, Same, CellsAt;
    MatchUnit(p.mode, h, q, p.Ps()[i], k);
    assert Spells(p.mode, p.tokens, p.Ps()[i], p.toks[i]);
  }

  /** The unit after `prefix` is spelled `form`. */
  ghost predicate FormStands(p: SearchPlan, h: Bytes, q: nat, prefix: seq<Cell>, form: Bytes) {
    var e := q + |prefix|;
    e < |h| && |form| == SizeAt(p.mode, h, e) && h[e..e + |form|] == form
  }

  ghost predicate FormExpanded(p: SearchPlan, ts: seq<Triple>, state: nat, prefix: seq<Cell>, form: Bytes)
    reads p
  {
    forall h: Bytes, q: nat, i: nat, k: nat :: Reaching(p, h, q, i, k, state, prefix) && FormStands(p, h, q, prefix, form) ==> AdmitsTriple(ts, h, q)
  }

  lemma {:induction false} MoreFormExpanded(p: SearchPlan, a: seq<Triple>, b: seq<Triple>, state: nat, prefix: seq<Cell>, form: Bytes)
    requires More(a, b) && FormExpanded(p, a, state, prefix, form)
    ensures FormExpanded(p, b, state, prefix, form)
  {
    forall h: Bytes, q: nat, i: nat, k: nat | Reaching(p, h, q, i, k, state, prefix) && FormStands(p, h, q, prefix, form)
      ensures AdmitsTriple(b, h, q)
    {
      MoreAdmits(a, b, h, q);
    }
  }

  /** When every spelling of the token is expanded, so is the node. */
  lemma {:induction false} FormsExpand(p: SearchPlan, ts: seq<Triple>, state: nat, prefix: seq<Cell>, forms: seq<Bytes>)
    requires p.Valid() && state < |p.words| && p.words[state] != []
    requires forall f :: IsForm(p.tokens, Last(p.words[state]), f) ==> f in forms
    requires forall j: nat :: j < |forms| ==> FormExpanded(p, ts, state, prefix, forms[j])
    ensures Expanded(p, ts, state, prefix)
  {
    hide AllLinked, AllRows, TokensAreClasses, Reaching, AdmitsTriple;
    forall h: Bytes, q: nat, i: nat, k: nat | Reaching(p, h, q, i, k, state, prefix) ensures AdmitsTriple(ts, h, q) {
      ReachingUnit(p, h, q, i, k, state, prefix);
      var e := q + |prefix|;
      UnitForm(p, h, e);
      var form := h[e..e + SizeAt(p.mode, h, e)];
      var j :| 0 <= j < |forms| && forms[j] == form;
      assert FormStands(p, h, q, prefix, forms[j]);
    }
  }

  /** Three bytes are known: they are the triple. */
  lemma {:induction false} TripleFull(p: SearchPlan, ts: seq<Triple>, state: nat, prefix: seq<Cell>, form: Bytes, t: Triple)
    requires |form| > 0 && |prefix| + |form| >= 3 && t == (prefix + CellsOf(form))[..3] && t in ts
    ensures FormExpanded(p, ts, state, prefix, form)
  {
    forall h: Bytes, q: nat, i: nat, k: nat | Reaching(p, h, q, i, k, state, prefix) && FormStands(p, h, q, prefix, form)
      ensures AdmitsTriple(ts, h, q)
    {
      CellsJoin(prefix, CellsOf(form), h, q);
      CellsCut(prefix + CellsOf(form), 3, h, q);
      var n :| 0 <= n < |ts| && ts[n] == t;
      assert CellsAt(ts[n], h, q);
    }
  }

  /** A node without output is inside every pattern that reaches it. */
  lemma {:induction false} PatternGoesOn(p: SearchPlan, i: nat, k: nat, state: nat)
    requires p.Valid() && i < |p.toks| && k < |p.toks[i]| && state < |p.nodes| && p.words[state] == p.toks[i][..k + 1]
    requires p.nodes[state].output == NoOutput
    ensures k + 1 < |p.toks[i]| && p.toks[i][k + 1] in p.nodes[state].edges
    ensures var child := p.nodes[state].edges[p.toks[i][k + 1]];
            child < |p.nodes| && p.words[child] == p.toks[i][..k + 2]
  {
    hide AllRows, TokensAreClasses, IsFailure;
    var w := p.toks[i];
    assert NodeLinked(p.nodes, p.words, p.ix, p.toks, state);
    assert !IsSuffix(w, p.words[state]);
    assert w[..k + 1] == p.words[state];
    assert w in p.ix;
    PrefixWord(p.words, p.ix, w, k + 2);
    assert w[..k + 2] == p.words[state] + [w[k + 1]];
    EdgeChild(p.nodes, p.words, p.ix, state, w[k + 1]);
  }

  /** The spelling goes on at the child. */
  lemma {:induction false} ReachesNext(p: SearchPlan, h: Bytes, q: nat, i: nat, k: nat, state: nat, prefix: seq<Cell>, form: Bytes, child: nat)
    requires p.Valid() && Reaching(p, h, q, i, k, state, prefix) && FormStands(p, h, q, prefix, form)
    requires k + 1 < |p.toks[i]| && child < |p.words| && p.words[child] == p.toks[i][..k + 2]
    ensures Reaching(p, h, q, i, k + 1, child, prefix + CellsOf(form))
  {
    hide AllLinked, AllRows, TokensAreClasses, MatchEnd, SizeAt, CellsAt;
    ReachingUnit(p, h, q, i, k, state, prefix);
    CellsJoin(prefix, CellsOf(form), h, q);
  }

  /** Fewer than three bytes are known: the continuations have been expanded. */
  lemma {:induction false} TriplePartial(p: SearchPlan, ts: seq<Triple>, state: nat, prefix: seq<Cell>, form: Bytes)
    requires p.Valid() && state < |p.nodes| && p.nodes[state].output == NoOutput && |form| > 0
    requires forall t :: t in p.nodes[state].edges ==> Expanded(p, ts, p.nodes[state].edges[t], prefix + CellsOf(form))
    ensures FormExpanded(p, ts, state, prefix, form)
  {
    hide AllLinked, AllRows, TokensAreClasses;
    forall h: Bytes, q: nat, i: nat, k: nat | Reaching(p, h, q, i, k, state, prefix) && FormStands(p, h, q, prefix, form)
      ensures AdmitsTriple(ts, h, q)
    {
      PatternGoesOn(p, i, k, state);
      var child := p.nodes[state].edges[p.toks[i][k + 1]];
      ReachesNext(p, h, q, i, k, state, prefix, form, child);
      assert Expanded(p, ts, child, prefix + CellsOf(form));
    }
  }

  // ----- which triples, and whether they fit

  /** A triple that the spelling `f` leads to, behind `prefix` and at `state`. */
  ghost predicate FormRendered(p: SearchPlan, state: nat, prefix: seq<Cell>, f: Bytes, t: Triple)
    requires |prefix| < 3
    reads p
    decreases 3 - |prefix|, 0
  {
    |f| > 0 &&
    var cells := prefix + CellsOf(f);
    if |cells| >= 3 then t == cells[..3]
    else state < |p.nodes| && exists next {:trigger p.nodes[state].edges[next]} ::
           next in p.nodes[state].edges && Rendered(p, p.nodes[state].edges[next], next, cells, t)
  }

  /** A triple that reading on from `prefix` can show, when `token` leads to `state`. */
  ghost predicate Rendered(p: SearchPlan, state: nat, token: nat, prefix: seq<Cell>, t: Triple)
    requires |prefix| < 3
    reads p
    decreases 3 - |prefix|, 1
  {
    exists f :: IsForm(p.tokens, token, f) && FormRendered(p, state, prefix, f, t)
  }

  /** The spelling fills three bytes, or more is sure to follow it. */
  ghost predicate FormGoesOn(p: SearchPlan, state: nat, prefix: seq<Cell>, f: Bytes)
    requires |prefix| < 3
    reads p
    decreases 3 - |prefix|, 0
  {
    |f| > 0 &&
    var cells := prefix + CellsOf(f);
    || |cells| >= 3
    || (&& state < |p.nodes| && p.nodes[state].output == NoOutput && p.nodes[state].edges != map[]
        && forall next {:trigger p.nodes[state].edges[next]} :: next in p.nodes[state].edges ==>
             GoesOn(p, p.nodes[state].edges[next], next, cells))
  }

  /** Whatever is read from `prefix` on fills three bytes. */
  ghost predicate GoesOn(p: SearchPlan, state: nat, token: nat, prefix: seq<Cell>)
    requires |prefix| < 3
    reads p
    decreases 3 - |prefix|, 1
  {
    (exists f :: IsForm(p.tokens, token, f)) && forall f :: IsForm(p.tokens, token, f) ==> FormGoesOn(p, state, prefix, f)
  }

  ghost function Renderings(p: SearchPlan, state: nat, token: nat, prefix: seq<Cell>): iset<Triple>
    requires |prefix| < 3
    reads p
  {
    iset t: Triple | Rendered(p, state, token, prefix, t)
  }

  ghost function FormRenderings(p: SearchPlan, state: nat, prefix: seq<Cell>, f: Bytes): iset<Triple>
    requires |prefix| < 3
    reads p
  {
    iset t: Triple | FormRendered(p, state, prefix, f, t)
  }

  /** What a short spelling leads to, child by child. */
  lemma {:induction false} ChildPart(p: SearchPlan, state: nat, prefix: seq<Cell>, f: Bytes, next: nat)
    requires |prefix| < 3 && |f| > 0 && |prefix + CellsOf(f)| < 3 && state < |p.nodes| && next in p.nodes[state].edges
    ensures Renderings(p, p.nodes[state].edges[next], next, prefix + CellsOf(f)) <= FormRenderings(p, state, prefix, f)
    ensures FormGoesOn(p, state, prefix, f) ==> GoesOn(p, p.nodes[state].edges[next], next, prefix + CellsOf(f))
  {
    hide GoesOn, Rendered;
  }

  /** All children have been entered. */
  lemma {:induction false} ChildrenDone(p: SearchPlan, state: nat, prefix: seq<Cell>, f: Bytes, cur: seq<Triple>)
    requires |prefix| < 3 && |f| > 0 && |prefix + CellsOf(f)| < 3 && state < |p.nodes| && p.nodes[state].output == NoOutput
    requires p.nodes[state].edges != map[]
    requires forall next :: next in p.nodes[state].edges ==> ChildDone(p, p.nodes[state].edges[next], next, prefix + CellsOf(f), cur)
    ensures FormGoesOn(p, state, prefix, f) && forall t :: t in FormRenderings(p, state, prefix, f) ==> t in cur
  {
    hide GoesOn, Rendered;
  }

  ghost predicate ChildDone(p: SearchPlan, state: nat, token: nat, prefix: seq<Cell>, cur: seq<Triple>)
    requires |prefix| < 3
    reads p
  {
    GoesOn(p, state, token, prefix) && forall t :: t in Renderings(p, state, token, prefix) ==> t in cur
  }

  ghost predicate FormDone(p: SearchPlan, state: nat, prefix: seq<Cell>, f: Bytes, cur: seq<Triple>)
    requires |prefix| < 3
    reads p
  {
    FormGoesOn(p, state, prefix, f) && forall t :: t in FormRenderings(p, state, prefix, f) ==> t in cur
  }

  /** All spellings have been entered. */
  lemma {:induction false} FormsDone(p: SearchPlan, state: nat, token: nat, prefix: seq<Cell>, forms: seq<Bytes>, cur: seq<Triple>)
    requires |prefix| < 3 && forms != [] && (forall f :: IsForm(p.tokens, token, f) <==> f in forms)
    requires forall j: nat :: j < |forms| ==> FormDone(p, state, prefix, forms[j], cur)
    ensures ChildDone(p, state, token, prefix, cur)
  {
    hide FormRendered, FormGoesOn, IsForm;
    assert forms[0] in forms;
  }

  lemma {:induction false} FormPart(p: SearchPlan, state: nat, token: nat, prefix: seq<Cell>, f: Bytes)
    requires |prefix| < 3 && IsForm(p.tokens, token, f)
    ensures FormRenderings(p, state, prefix, f) <= Renderings(p, state, token, prefix)
    ensures GoesOn(p, state, token, prefix) ==> FormGoesOn(p, state, prefix, f)
  {
    hide FormRendered, FormGoesOn, IsForm;
  }

  // ----- compiling the triples

  /** Every way the source can read from `prefix` on, once the trie is at `state`. It fails
      exactly when three bytes are not sure to follow, or there is no room. */
  method Expand(p: SearchPlan, ts0: seq<Triple>, state: nat, token: nat, prefix: seq<Cell>) returns (ts: Option<seq<Triple>>)
    requires p.Valid() && state < |p.nodes| && p.words[state] != [] && token == Last(p.words[state]) && |prefix| < 3
    requires AllMarked(ts0) && MarkedCells(prefix) && Tidy(ts0)
    ensures ts.Some? ==> AllMarked(ts.value) && Expanded(p, ts.value, state, prefix)
    ensures ts.Some? ==> Filling(ts0, Renderings(p, state, token, prefix), ts.value) && ChildDone(p, state, token, prefix, ts.value)
    ensures ts.Some? <==> GoesOn(p, state, token, prefix) && Room(ts0, Renderings(p, state, token, prefix))
    decreases 3 - |prefix|, 1
  {
    hide AllLinked, AllRows, TokensAreClasses, FormExpanded, Expanded, GoesOn, FormGoesOn, Renderings, FormRenderings, Room, FormDone, ChildDone, IsForm, SearchPlan.Valid;
    var forms := Forms(p.tokens, token);
    if forms == [] {
      NoForm(p, state, token, prefix);
      return None;
    }
    ghost var want := Renderings(p, state, token, prefix);
    var cur := ts0;
    for n := 0 to |forms|
      invariant AllMarked(cur) && Filling(ts0, want, cur)
      invariant forall j: nat :: j < n ==> FormExpanded(p, cur, state, prefix, forms[j]) && FormDone(p, state, prefix, forms[j], cur)
    {
      assert forms[n] in forms;
      FormPart(p, state, token, prefix, forms[n]);
      var next := ExpandForm(p, cur, state, prefix, forms[n]);
      if next.None? {
        if FormGoesOn(p, state, prefix, forms[n]) {
          FillFails(ts0, want, cur, FormRenderings(p, state, prefix, forms[n]));
        }
        return None;
      }
      forall j: nat | j < n ensures FormExpanded(p, next.value, state, prefix, forms[j]) && FormDone(p, state, prefix, forms[j], next.value) {
        MoreFormExpanded(p, cur, next.value, state, prefix, forms[j]);
        StillDone(p, state, prefix, forms[j], cur, next.value);
      }
      FillStep(ts0, want, cur, FormRenderings(p, state, prefix, forms[n]), next.value);
      cur := next.value;
    }
    HasRoot(p);
    AllFormsExpand(p, cur, state, token, prefix, forms);
    FormsDone(p, state, token, prefix, forms, cur);
    DoneFills(p, ts0, state, token, prefix, cur);
    return Some(cur);
  }

  lemma {:induction false} NoForm(p: SearchPlan, state: nat, token: nat, prefix: seq<Cell>)
    requires |prefix| < 3 && forall f :: !IsForm(p.tokens, token, f)
    ensures !GoesOn(p, state, token, prefix)
  {
  }

  lemma {:induction false} AllFormsExpand(p: SearchPlan, ts: seq<Triple>, state: nat, token: nat, prefix: seq<Cell>, forms: seq<Bytes>)
    requires p.Valid() && state < |p.words| && p.words[state] != [] && token == Last(p.words[state])
    requires forall f :: IsForm(p.tokens, token, f) <==> f in forms
    requires forall j: nat :: j < |forms| ==> FormExpanded(p, ts, state, prefix, forms[j])
    ensures Expanded(p, ts, state, prefix)
  {
    hide SearchPlan.Valid, FormExpanded, Expanded, IsForm;
    FormsExpand(p, ts, state, prefix, forms);
  }

  lemma {:induction false} StillDone(p: SearchPlan, state: nat, prefix: seq<Cell>, f: Bytes, a: seq<Triple>, b: seq<Triple>)
    requires |prefix| < 3 && FormDone(p, state, prefix, f, a) && More(a, b)
    ensures FormDone(p, state, prefix, f, b)
  {
  }

  lemma {:induction false} DoneFills(p: SearchPlan, ts0: seq<Triple>, state: nat, token: nat, prefix: seq<Cell>, cur: seq<Triple>)
    requires |prefix| < 3 && Filling(ts0, Renderings(p, state, token, prefix), cur) && ChildDone(p, state, token, prefix, cur)
    ensures GoesOn(p, state, token, prefix) && Room(ts0, Renderings(p, state, token, prefix))
  {
    hide Renderings, GoesOn;
    Filled(ts0, Renderings(p, state, token, prefix), cur);
  }

  method ExpandForm(p: SearchPlan, ts0: seq<Triple>, state: nat, prefix: seq<Cell>, form: Bytes) returns (ts: Option<seq<Triple>>)
    requires p.Valid() && state < |p.nodes| && p.words[state] != [] && |prefix| < 3 && |form| > 0
    requires AllMarked(ts0) && MarkedCells(prefix) && Tidy(ts0)
    ensures ts.Some? ==> AllMarked(ts.value) && FormExpanded(p, ts.value, state, prefix, form)
    ensures ts.Some? ==> Filling(ts0, FormRenderings(p, state, prefix, form), ts.value) && FormDone(p, state, prefix, form, ts.value)
    ensures ts.Some? <==> FormGoesOn(p, state, prefix, form) && Room(ts0, FormRenderings(p, state, prefix, form))
    decreases 3 - |prefix|, 0
  {
    hide AllRows, TokensAreClasses, FormExpanded, Expanded, NodeLinked, GoesOn, Rendered, Renderings, FormRenderings, Room, ChildDone, FormDone, FormGoesOn, SearchPlan.Valid;
    var cells := prefix + CellsOf(form);
    ghost var want := FormRenderings(p, state, prefix, form);
    if |cells| >= 3 {
      FullForm(p, ts0, state, prefix, form, cells[..3]);
      ts := AddTriple(ts0, cells[..3]);
      if ts.Some? {
        TripleFull(p, ts.value, state, prefix, form, cells[..3]);
      }
      return;
    }
    var pending := p.nodes[state].edges.Keys;
    if p.nodes[state].output != NoOutput || pending == {} {
      NothingFollows(p, state, prefix, form);
      return None;
    }
    var cur := ts0;
    while pending != {}
      invariant pending <= p.nodes[state].edges.Keys && AllMarked(cur) && Filling(ts0, want, cur)
      invariant forall t :: t in p.nodes[state].edges && t !in pending ==>
                  Expanded(p, cur, p.nodes[state].edges[t], cells) && ChildDone(p, p.nodes[state].edges[t], t, cells, cur)
    {
      var next :| next in pending;
      ChildWord(p, state, next);
      ChildPart(p, state, prefix, form, next);
      var child := p.nodes[state].edges[next];
      var more := Expand(p, cur, child, next, cells);
      if more.None? {
        if GoesOn(p, child, next, cells) {
          FillFails(ts0, want, cur, Renderings(p, child, next, cells));
        }
        return None;
      }
      forall t | t in p.nodes[state].edges && t !in pending
        ensures Expanded(p, more.value, p.nodes[state].edges[t], cells) && ChildDone(p, p.nodes[state].edges[t], t, cells, more.value)
      {
        MoreExpanded(p, cur, more.value, p.nodes[state].edges[t], cells);
        ChildStillDone(p, p.nodes[state].edges[t], t, cells, cur, more.value);
      }
      FillStep(ts0, want, cur, Renderings(p, child, next, cells), more.value);
      cur := more.value;
      pending := pending - {next};
    }
    TriplePartial(p, cur, state, prefix, form);
    ChildrenDone(p, state, prefix, form, cur);
    FormFills(p, ts0, state, prefix, form, cur);
    return Some(cur);
  }

  lemma {:induction false} ChildWord(p: SearchPlan, state: nat, next: nat)
    requires p.Valid() && state < |p.nodes| && next in p.nodes[state].edges
    ensures p.nodes[state].edges[next] < |p.nodes| == |p.words|
    ensures p.words[p.nodes[state].edges[next]] != [] && Last(p.words[p.nodes[state].edges[next]]) == next
  {
    hide AllRows, TokensAreClasses;
    EdgeChild(p.nodes, p.words, p.ix, state, next);
  }

  lemma {:induction false} ChildStillDone(p: SearchPlan, state: nat, token: nat, prefix: seq<Cell>, a: seq<Triple>, b: seq<Triple>)
    requires |prefix| < 3 && ChildDone(p, state, token, prefix, a) && More(a, b)
    ensures ChildDone(p, state, token, prefix, b)
  {
    hide GoesOn, Renderings;
  }

  lemma {:induction false} FormFills(p: SearchPlan, ts0: seq<Triple>, state: nat, prefix: seq<Cell>, f: Bytes, cur: seq<Triple>)
    requires |prefix| < 3 && Filling(ts0, FormRenderings(p, state, prefix, f), cur)
    requires FormGoesOn(p, state, prefix, f) && forall t :: t in FormRenderings(p, state, prefix, f) ==> t in cur
    ensures FormDone(p, state, prefix, f, cur) && Room(ts0, FormRenderings(p, state, prefix, f))
  {
    hide FormRenderings, FormGoesOn;
    Filled(ts0, FormRenderings(p, state, prefix, f), cur);
  }

  /** A spelling that fills three bytes is one triple. */
  lemma {:induction false} FullForm(p: SearchPlan, ts0: seq<Triple>, state: nat, prefix: seq<Cell>, f: Bytes, t: Triple)
    requires |prefix| < 3 && |f| > 0 && |prefix + CellsOf(f)| >= 3 && t == (prefix + CellsOf(f))[..3] && Tidy(ts0)
    ensures FormGoesOn(p, state, prefix, f)
    ensures var more := AddTriple(ts0, t);
            && (more.Some? <==> Room(ts0, FormRenderings(p, state, prefix, f)))
            && (more.Some? ==> Filling(ts0, FormRenderings(p, state, prefix, f), more.value) && FormDone(p, state, prefix, f, more.value))
  {
    hide Room, Filling;
    EnterOne(ts0, t, FormRenderings(p, state, prefix, f), AddTriple(ts0, t));
  }

  lemma {:induction false} NothingFollows(p: SearchPlan, state: nat, prefix: seq<Cell>, f: Bytes)
    requires |prefix| < 3 && |f| > 0 && |prefix + CellsOf(f)| < 3 && state < |p.nodes|
    requires p.nodes[state].output != NoOutput || p.nodes[state].edges.Keys == {}
    ensures !FormGoesOn(p, state, prefix, f)
  {
    hide GoesOn;
  }

  /** The triples admit every position at which a pattern starts with `token`. */
  ghost predicate Screens(p: SearchPlan, ts: seq<Triple>, token: nat)
    reads p
  {
    forall h: Bytes, q: nat, i: nat :: Starts(p, h, q, i) && TokenAt(p, h, q) == token ==> AdmitsTriple(ts, h, q)
  }

  lemma {:induction false} MoreScreens(p: SearchPlan, a: seq<Triple>, b: seq<Triple>, token: nat)
    requires More(a, b) && Screens(p, a, token)
    ensures Screens(p, b, token)
  {
    forall h: Bytes, q: nat, i: nat | Starts(p, h, q, i) && TokenAt(p, h, q) == token ensures AdmitsTriple(b, h, q) {
      MoreAdmits(a, b, h, q);
    }
  }

  /** An expanded root screens its token. */
  lemma {:induction false} RootScreens(p: SearchPlan, ts: seq<Triple>, state: nat, token: nat)
    requires p.Valid() && state < |p.words| && p.words[state] == [token] && Expanded(p, ts, state, [])
    ensures Screens(p, ts, token)
  {
    hide AllLinked, AllRows, TokensAreClasses, AdmitsTriple;
    forall h: Bytes, q: nat, i: nat | Starts(p, h, q, i) && TokenAt(p, h, q) == token ensures AdmitsTriple(ts, h, q) {
      StartToken(p, h, q, i);
      assert p.toks[i][..1] == [token];
      assert p.Ps()[i][..0] == [];
      assert Reaching(p, h, q, i, 0, state, []);
    }
  }

  predicate HasLetter(forms: seq<Bytes>) {
    exists k :: 0 <= k < |forms| && |forms[k]| == 1 && IsAsciiLetter(forms[k][0])
  }

  /** Some spelling of the token is an opaque continuation byte. */
  predicate UnsafeRoot(p: SearchPlan, token: nat)
    reads p
  {
    exists b: byte :: IsContinuation(b) && b in p.tokens.bytes && p.tokens.bytes[b] == token
  }

  /** The token starts a pattern, has a letter among its spellings and none that is an
      opaque continuation byte, fills three bytes, and its triples have room. */
  ghost predicate Fits(p: SearchPlan, ts: seq<Triple>, token: nat)
    reads p
  {
    && 0 < token < p.stride && |p.nodes| > 0 && token in p.nodes[0].edges && !UnsafeRoot(p, token)
    && (exists f :: IsForm(p.tokens, token, f) && |f| == 1 && IsAsciiLetter(f[0]))
    && GoesOn(p, p.nodes[0].edges[token], token, []) && Room(ts, Renderings(p, p.nodes[0].edges[token], token, []))
  }

  /** The triples of the roots in the set, and no others. */
  ghost predicate OfRoots(p: SearchPlan, ts: seq<Triple>, roots: set<nat>)
    reads p
  {
    && (forall t :: t in ts ==> exists root :: root in roots && OfRoot(p, root, t))
    && forall root, t :: root in roots && OfRoot(p, root, t) ==> t in ts
  }

  ghost predicate OfRoot(p: SearchPlan, root: nat, t: Triple)
    reads p
  {
    |p.nodes| > 0 && root in p.nodes[0].edges && t in Renderings(p, p.nodes[0].edges[root], root, [])
  }

  /** Triples for every root that has an ASCII letter among its spellings and whose
      expansion fits; the others are left out. */
  method MakeTripleFilter(p: SearchPlan) returns (ts: seq<Triple>, roots: set<nat>)
    requires p.Valid()
    ensures AllMarked(ts) && forall t :: t in roots ==> Screens(p, ts, t)
    ensures Tidy(ts) && OfRoots(p, ts, roots)
    ensures forall token: nat :: token in roots <==> Fits(p, ts, token)
  {
    hide SearchPlan.Valid, Screens, Expanded, GoesOn, Renderings, Room, ChildDone, IsForm, OfRoots, UnsafeRoot;
    HasRoot(p);
    ts, roots := [], {};
    NoRoots(p);
    var token: nat := 1;
    while token < p.stride
      invariant 1 <= token && AllMarked(ts) && Chosen(p, ts, roots, token) && forall t :: t in roots ==> Screens(p, ts, t)
    {
      ghost var ts0, roots0 := ts, roots;
      ghost var fits := false;
      if token in p.nodes[0].edges && !UnsafeRoot(p, token) {
        var forms := Forms(p.tokens, token);
        SomeLetter(p, token, forms);
        if HasLetter(forms) {
          RootNode(p, token);
          var state := p.nodes[0].edges[token];
          var more := Expand(p, ts, state, token, []);
          if more.Some? {
            forall t | t in roots ensures Screens(p, more.value, t) {
              MoreScreens(p, ts, more.value, t);
            }
            RootScreens(p, more.value, state, token);
            ts, roots, fits := more.value, roots + {token}, true;
          }
        }
      }
      NextRoot(p, ts0, roots0, token, ts, roots, fits);
      token := token + 1;
    }
    AllRoots(p, ts, roots, token);
  }

  /** The roots below `token` that fit have been chosen, and their triples entered. */
  ghost predicate Chosen(p: SearchPlan, ts: seq<Triple>, roots: set<nat>, token: nat)
    reads p
  {
    Tidy(ts) && OfRoots(p, ts, roots) && forall t: nat :: t in roots <==> t < token && Fits(p, ts, t)
  }

  lemma {:induction false} NoRoots(p: SearchPlan)
    ensures Chosen(p, [], {}, 1)
  {
    hide GoesOn, Renderings, Room, IsForm, UnsafeRoot;
  }

  lemma {:induction false} AllRoots(p: SearchPlan, ts: seq<Triple>, roots: set<nat>, token: nat)
    requires Chosen(p, ts, roots, token) && token >= p.stride
    ensures Tidy(ts) && OfRoots(p, ts, roots) && forall t: nat :: t in roots <==> Fits(p, ts, t)
  {
    hide GoesOn, Renderings, Room, IsForm, UnsafeRoot, OfRoots;
  }

  lemma {:induction false} SomeLetter(p: SearchPlan, token: nat, forms: seq<Bytes>)
    requires forall f :: IsForm(p.tokens, token, f) <==> f in forms
    ensures HasLetter(forms) <==> exists f :: IsForm(p.tokens, token, f) && |f| == 1 && IsAsciiLetter(f[0])
  {
    hide IsForm;
    if HasLetter(forms) {
      var k :| 0 <= k < |forms| && |forms[k]| == 1 && IsAsciiLetter(forms[k][0]);
      assert forms[k] in forms;
    }
  }

  lemma {:induction false} RootNode(p: SearchPlan, token: nat)
    requires p.Valid() && |p.nodes| > 0 && token in p.nodes[0].edges
    ensures p.nodes[0].edges[token] < |p.nodes| == |p.words| && p.words[p.nodes[0].edges[token]] == [token]
  {
    hide AllRows, TokensAreClasses, AllLinked;
    RootEdge(p, token);
  }

  /** What has room beside more triples has room beside fewer. */
  lemma {:induction false} FitsFewer(p: SearchPlan, a: seq<Triple>, b: seq<Triple>, token: nat)
    requires More(a, b) && Fits(p, b, token)
    ensures Fits(p, a, token)
  {
    hide GoesOn, Renderings, IsForm, UnsafeRoot;
  }

  /** What has been entered still has room. */
  lemma {:induction false} FitsHeld(p: SearchPlan, a: seq<Triple>, b: seq<Triple>, token: nat)
    requires Fits(p, a, token) && Tidy(b) && forall t :: OfRoot(p, token, t) ==> t in b
    ensures Fits(p, b, token)
  {
    hide GoesOn, Renderings, IsForm, UnsafeRoot;
    assert More(b, b);
  }

  /** One more root has been decided. */
  lemma {:induction false} NextRoot(p: SearchPlan, ts0: seq<Triple>, roots0: set<nat>, token: nat, ts: seq<Triple>, roots: set<nat>, fits: bool)
    requires Chosen(p, ts0, roots0, token) && (fits <==> Fits(p, ts0, token))
    requires if fits then roots == roots0 + {token} else roots == roots0 && ts == ts0
    requires fits ==> |p.nodes| > 0 && token in p.nodes[0].edges
    requires fits ==> var child, want := p.nodes[0].edges[token], Renderings(p, p.nodes[0].edges[token], token, []);
                      Filling(ts0, want, ts) && ChildDone(p, child, token, [], ts)
    ensures Chosen(p, ts, roots, token + 1)
  {
    hide GoesOn, Renderings, IsForm, UnsafeRoot, Fits, Room;
    if fits {
      forall t: nat ensures t in roots <==> t < token + 1 && Fits(p, ts, t) {
        if Fits(p, ts, t) {
          FitsFewer(p, ts0, ts, t);
        }
        if t in roots {
          FitsHeld(p, ts0, ts, t);
        }
      }
    }
  }

  lemma {:induction false} HasRoot(p: SearchPlan)
    requires p.Valid()
    ensures |p.nodes| > 0 && |p.words| == |p.nodes|
  {
    hide AllRows, TokensAreClasses, AllLinked;
    StartState(p);
  }

  // ----- both filters together

  /** Pairs and single bytes, or triples; a set of triples that leaves out a root is
      dropped, and the root filter takes over all roots. */
  datatype Filters = Filters(root: RootFilter, triples: seq<Triple>) {
    predicate Usable() {
      root.Usable() || triples != []
    }
  }

  predicate Nominates(fs: Filters, h: Bytes, q: nat) {
    Admits(fs.root, h, q) || AdmitsTriple(fs.triples, h, q)
  }

  /** The filters nominate every position at which a pattern starts; only letters fold. */
  ghost predicate Conservative(p: SearchPlan, fs: Filters)
    reads p
  {
    && AllMarked(fs.triples) && LettersFold(fs.root)
    && forall h: Bytes, q: nat, i: nat :: Starts(p, h, q, i) ==> Nominates(fs, h, q)
  }

  /** The triples admit every ASCII position at which a pattern starts; only letters fold. */
  ghost predicate ScreensAscii(p: SearchPlan, ts: seq<Triple>)
    reads p
  {
    AllMarked(ts) && forall h: Bytes, q: nat, i: nat :: StartsAscii(p, h, q, i) ==> AdmitsTriple(ts, h, q)
  }

  method MakeFilters(p: SearchPlan) returns (fs: Filters)
    requires p.Valid()
    ensures fs.Usable() ==> Conservative(p, fs)
    ensures Held(p.tokens, fs.root) && (fs.triples != [] ==> AllRootsFit(p, fs.triples))
    ensures RootsFit(p, {}) && !UnsafeRoots(p) ==> Conservative(p, fs)
    ensures Conservative(p, fs) || UnsafeRoots(p) || GaveUp(p, {})
  {
    hide LettersFold, Held, Fits, RootsFit, UnsafeRoots, GaveUp, AllLinked, AllRows, TokensAreClasses, Admits, AdmitsTriple, Starts;
    StartState(p);
    var triples, roots := MakeTripleFilter(p);
    if p.nodes[0].edges.Keys <= roots {
      var root := MakeRootFilter(p, roots);
      fs := Filters(root, triples);
      forall h: Bytes, q: nat, i: nat | Starts(p, h, q, i) ensures Nominates(fs, h, q) {
        StartToken(p, h, q, i);
        RootOf(p, i);
      }
    } else {
      var root := MakeRootFilter(p, {});
      fs := Filters(root, []);
    }
  }

  /** Filters that nominate every start are usable as soon as a pattern has a unit. */
  lemma {:induction false} ConservativeIsUsable(p: SearchPlan, fs: Filters, i: nat)
    requires p.Valid() && Conservative(p, fs) && i < |p.Ps()| && p.Ps()[i] != []
    ensures fs.Usable()
  {
    hide SearchPlan.Valid;
    SelfStarts(p, i);
    assert Nominates(fs, p.patterns[i], 0);
  }

  ghost predicate AllRootsFit(p: SearchPlan, ts: seq<Triple>)
    reads p
  {
    |p.nodes| > 0 && forall token: nat :: token in p.nodes[0].edges ==> Fits(p, ts, token)
  }

  ghost predicate AsciiRootsFit(p: SearchPlan, ts: seq<Triple>)
    reads p
  {
    |p.nodes| > 0 && forall b: byte :: IsAscii(b) && p.tokens.Of(Rune(b)) in p.nodes[0].edges ==> Fits(p, ts, p.tokens.Of(Rune(b)))
  }

  /** The triples of exactly the roots that fit beside them. */
  ghost predicate KeptTriples(p: SearchPlan, ts: seq<Triple>)
    reads p
  {
    Tidy(ts) && exists roots: set<nat> :: RootsKept(p, ts, roots)
  }

  ghost predicate RootsKept(p: SearchPlan, ts: seq<Triple>, roots: set<nat>)
    reads p
  {
    OfRoots(p, ts, roots) && forall token: nat :: token in roots <==> Fits(p, ts, token)
  }

  /** The triples kept for ASCII text, if any: those of the roots that fit, when all roots
      that ASCII text can reach do and some other root does not. */
  ghost predicate AsciiKept(p: SearchPlan, kept: Option<seq<Triple>>)
    reads p
  {
    exists ts :: KeptTriples(p, ts) && kept == if ts != [] && !AllRootsFit(p, ts) && AsciiRootsFit(p, ts) then Some(ts) else None
  }

  lemma {:induction false} KeptOf(p: SearchPlan, ts: seq<Triple>, roots: set<nat>)
    requires Tidy(ts) && OfRoots(p, ts, roots) && forall token: nat :: token in roots <==> Fits(p, ts, token)
    ensures KeptTriples(p, ts)
  {
    hide Tidy, OfRoots, Fits;
    assert RootsKept(p, ts, roots);
  }

  /** A set of triples that leaves out some roots can still screen ASCII text, when it
      covers every root with an ASCII spelling. A set that covers all roots is kept for
      the filters instead. */
  method MakeAsciiTriples(p: SearchPlan) returns (ts: seq<Triple>, complete: bool)
    requires p.Valid() && !p.mode.exact
    ensures complete ==> ScreensAscii(p, ts)
    ensures AsciiKept(p, if complete then Some(ts) else None)
  {
    hide AllLinked, AllRows, TokensAreClasses, AdmitsTriple, Starts, Fits, Tidy, OfRoots, KeptTriples;
    StartState(p);
    var roots;
    ts, roots := MakeTripleFilter(p);
    complete := ts != [] && !(p.nodes[0].edges.Keys <= roots) && forall b: byte :: IsAscii(b) && p.tokens.Of(Rune(b)) in p.nodes[0].edges ==> p.tokens.Of(Rune(b)) in roots;
    KeptOf(p, ts, roots);
    assert complete <==> ts != [] && !AllRootsFit(p, ts) && AsciiRootsFit(p, ts);
    if complete {
      forall h: Bytes, q: nat, i: nat | StartsAscii(p, h, q, i) ensures AdmitsTriple(ts, h, q) {
        StartsIn(p, h, q, i);
        StartToken(p, h, q, i);
        RootOf(p, i);
        AsciiUnit(p.mode, h, q);
      }
    }
  }

  ghost predicate StartsAscii(p: SearchPlan, h: Bytes, q: nat, i: nat)
    reads p
  {
    Starts(p, h, q, i) && q < |h| && IsAscii(h[q])
  }

  lemma {:induction false} StartsIn(p: SearchPlan, h: Bytes, q: nat, i: nat)
    requires Starts(p, h, q, i)
    ensures q < |h|
  {
  }

  /** The positions from `at` on at which no triple stands; the last two are left alone. */
  method TripleSkipScalar(h: Bytes, at: nat, ts: seq<Triple>) returns (skipped: nat)
    requires at <= |h|
    ensures at + skipped <= |h| && forall q :: at <= q < at + skipped ==> !AdmitsTriple(ts, h, q)
    ensures at + skipped + 2 < |h| ==> AdmitsTriple(ts, h, at + skipped)
  {
    var q := at;
    while q + 2 < |h| && !AdmitsTriple(ts, h, q)
      invariant at <= q <= |h| && forall r :: at <= r < q ==> !AdmitsTriple(ts, h, r)
    {
      q := q + 1;
    }
    skipped := q - at;
  }
}
