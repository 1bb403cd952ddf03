/** One pattern anchored by a three-byte window: behind a prefix of fixed width, every way
    the source can spell the next three bytes. Where one of them stands, tokens decide. */
module UnicodeTriples {
  import opened Utf8
  import opened Spec
  import opened Displacements
  import opened Plan
  import opened Search
  import opened Singles
  import opened Rooms
  import opened TripleFilters
  import opened ConfirmMakers
  import opened UnicodePairs
  import Confirm
  import Filtered
  import opened RootFilters

  /** Cells that compare whole bytes. */
  function Plain(form: Bytes): (cells: seq<Cell>)
    ensures |cells| == |form| && MarkedCells(cells)
    ensures forall h: Bytes, q: nat :: CellsAt(cells, h, q) <==> StandsAt(h, q, form)
  {
    var cells := seq(|form|, j requires 0 <= j < |form| => Cell(form[j], false));
    assert forall h: Bytes, q: nat :: CellsAt(cells, h, q) <==> StandsAt(h, q, form) by {
      forall h: Bytes, q: nat ensures CellsAt(cells, h, q) <==> StandsAt(h, q, form) {
        PlainStands(cells, form, h, q);
      }
    }
    cells
  }

  lemma {:induction false} PlainStands(cells: seq<Cell>, form: Bytes, h: Bytes, q: nat)
    requires |cells| == |form| && forall j :: 0 <= j < |form| ==> cells[j] == Cell(form[j], false)
    ensures CellsAt(cells, h, q) <==> StandsAt(h, q, form)
  {
    if StandsAt(h, q, form) {
      forall j | 0 <= j < |cells| ensures Folded(cells[j].fold, cells[j].value, h[q + j]) {
        assert h[q..q + |form|][j] == h[q + j];
      }
    }
    if CellsAt(cells, h, q) {
      forall j | 0 <= j < |form| ensures h[q..q + |form|][j] == form[j] {
        assert Folded(cells[j].fold, cells[j].value, h[q + j]);
      }
      assert h[q..q + |form|] == form;
    }
  }

  /** A match from `q` reads its unit `n` behind the prefix that stands at `e`. */
  ghost predicate Reads(p: SearchPlan, n: nat, prefix: seq<Cell>, h: Bytes, q: nat, e: nat)
    requires p.Valid() && |p.patterns| == 1
    reads p
  {
    Lone(p, h, q) && n <= |p.Ps()[0]| && MatchEnd(p.mode, h, q, p.Ps()[0][..n]) == Some(e + |prefix|) && CellsAt(prefix, h, e)
  }

  /** The triples admit every match that reads on behind the prefix. */
  ghost predicate AllRead(p: SearchPlan, ts: seq<Triple>, n: nat, prefix: seq<Cell>)
    requires p.Valid() && |p.patterns| == 1
    reads p
  {
    forall h: Bytes, q: nat, e: nat :: Reads(p, n, prefix, h, q, e) ==> AdmitsTriple(ts, h, e)
  }

  /** Likewise, when the unit `n` is spelled `f`. */
  ghost predicate FormRead(p: SearchPlan, ts: seq<Triple>, n: nat, prefix: seq<Cell>, f: Bytes)
    requires p.Valid() && |p.patterns| == 1
    reads p
  {
    forall h: Bytes, q: nat, e: nat :: Reads(p, n, prefix, h, q, e) && Reads(p, n + 1, prefix + Plain(f), h, q, e) ==> AdmitsTriple(ts, h, e)
  }

  lemma {:induction false} MoreRead(p: SearchPlan, a: seq<Triple>, b: seq<Triple>, n: nat, prefix: seq<Cell>, f: Bytes)
    requires p.Valid() && |p.patterns| == 1 && More(a, b) && FormRead(p, a, n, prefix, f)
    ensures FormRead(p, b, n, prefix, f)
  {
    hide SearchPlan.Valid, Reads, AdmitsTriple;
    forall h: Bytes, q: nat, e: nat | Reads(p, n, prefix, h, q, e) && Reads(p, n + 1, prefix + Plain(f), h, q, e) ensures AdmitsTriple(b, h, e) {
      MoreAdmits(a, b, h, e);
    }
  }

  /** The next unit of a match is one of its spellings. */
  lemma {:induction false} ReadUnit(p: SearchPlan, forms: seq<Bytes>, n: nat, prefix: seq<Cell>, h: Bytes, q: nat, e: nat) returns (f: Bytes)
    requires p.Valid() && !p.mode.exact && |p.patterns| == 1 && n < |p.Ps()[0]| && Reads(p, n, prefix, h, q, e)
    requires p.mode.Valid() && UnitForms(p.mode, p.Ps()[0][n], forms)
    ensures f in forms && Reads(p, n + 1, prefix + Plain(f), h, q, e)
  {
    hide SearchPlan.Valid, MatchEnd, UnitAt, SizeAt, UnitForms;
    var at := e + |prefix|;
    MatchUnit(p.mode, h, q, p.Ps()[0], n);
    f := SpelledAs(p.mode, h, at, p.Ps()[0][n], forms);
    var cells := prefix + Plain(f);
    assert CellsAt(Plain(f), h, at);
    forall j | 0 <= j < |cells| ensures Folded(cells[j].fold, cells[j].value, h[e + j]) {
      if j >= |prefix| {
        assert cells[j] == Plain(f)[j - |prefix|];
      }
    }
  }

  lemma {:induction false} SpelledAs(m: Mode, h: Bytes, at: nat, u: CodeUnit, forms: seq<Bytes>) returns (f: Bytes)
    requires m.Valid() && !m.exact && at < |h| && Same(m, UnitAt(m, h, at), u) && UnitForms(m, u, forms)
    ensures f in forms && |f| == SizeAt(m, h, at) && StandsAt(h, at, f)
  {
    hide FormLen, FormRune, Confirm.FormsFor;
    f := h[at..at + SizeAt(m, h, at)];
    match u {
      case Rune(r) => Confirm.FormIsUnit(m, h, at, r, forms);
      case Raw(b) => assert f == [b] == forms[0];
    }
  }

  lemma {:induction false} UnitRead(p: SearchPlan, ts: seq<Triple>, forms: seq<Bytes>, n: nat, prefix: seq<Cell>)
    requires p.Valid() && !p.mode.exact && |p.patterns| == 1 && n < |p.Ps()[0]|
    requires p.mode.Valid() && UnitForms(p.mode, p.Ps()[0][n], forms) && forall i: nat :: i < |forms| ==> FormRead(p, ts, n, prefix, forms[i])
    ensures AllRead(p, ts, n, prefix)
  {
    hide SearchPlan.Valid, UnitForms, AdmitsTriple, Reads;
    forall h: Bytes, q: nat, e: nat | Reads(p, n, prefix, h, q, e) ensures AdmitsTriple(ts, h, e) {
      var f := ReadUnit(p, forms, n, prefix, h, q, e);
      var i :| 0 <= i < |forms| && forms[i] == f;
      assert FormRead(p, ts, n, prefix, forms[i]);
    }
  }

  lemma {:induction false} FullRead(p: SearchPlan, ts: seq<Triple>, n: nat, prefix: seq<Cell>, f: Bytes, t: Triple)
    requires p.Valid() && |p.patterns| == 1 && |prefix + Plain(f)| >= 3 && t == (prefix + Plain(f))[..3] && t in ts
    ensures FormRead(p, ts, n, prefix, f)
  {
    hide SearchPlan.Valid, MatchEnd;
    var k :| 0 <= k < |ts| && ts[k] == t;
    forall h: Bytes, q: nat, e: nat | Reads(p, n, prefix, h, q, e) && Reads(p, n + 1, prefix + Plain(f), h, q, e) ensures AdmitsTriple(ts, h, e) {
      assert CellsAt(ts[k], h, e);
    }
  }

  /** Enter every spelling of the next bytes, as far as three are known. */
  method TripleFromForms(p: SearchPlan, all: seq<seq<Bytes>>, n: nat, prefix: seq<Cell>, ts0: seq<Triple>) returns (ts: Option<seq<Triple>>)
    requires OnePattern(p) && p.mode.Valid() && AllForms(p.mode, p.Ps()[0], all) && n <= |all| && |prefix| < 3
    requires AllMarked(ts0) && MarkedCells(prefix)
    ensures ts.Some? ==> AllMarked(ts.value) && More(ts0, ts.value) && AllRead(p, ts.value, n, prefix)
    decreases |all| - n
  {
    hide SearchPlan.Valid, Filtered.OpaqueContinuation, UnitForms, FormRead, AllRead, Units, Reads, AdmitsTriple;
    if n == |all| {
      return None;
    }
    var forms := all[n];
    var cur := ts0;
    for i := 0 to |forms|
      invariant AllMarked(cur) && More(ts0, cur) && forall j: nat :: j < i ==> FormRead(p, cur, n, prefix, forms[j])
    {
      var cells := prefix + Plain(forms[i]);
      var more;
      if |cells| >= 3 {
        more := AddTriple(cur, cells[..3]);
        if more.Some? {
          FullRead(p, more.value, n, prefix, forms[i], cells[..3]);
        }
      } else {
        more := TripleFromForms(p, all, n + 1, cells, cur);
        if more.Some? {
          PartRead(p, more.value, n, prefix, forms[i]);
        }
      }
      if more.None? {
        return None;
      }
      forall j: nat | j < i ensures FormRead(p, more.value, n, prefix, forms[j]) {
        MoreRead(p, cur, more.value, n, prefix, forms[j]);
      }
      cur := more.value;
    }
    UnitRead(p, cur, forms, n, prefix);
    return Some(cur);
  }

  lemma {:induction false} PartRead(p: SearchPlan, ts: seq<Triple>, n: nat, prefix: seq<Cell>, f: Bytes)
    requires p.Valid() && |p.patterns| == 1 && AllRead(p, ts, n + 1, prefix + Plain(f))
    ensures FormRead(p, ts, n, prefix, f)
  {
    hide SearchPlan.Valid, Reads, AdmitsTriple;
  }

  // ----- the anchor

  /** Every match shows one of the triples at the offset. */
  ghost predicate ShowsTriple(p: SearchPlan, ts: seq<Triple>, at: nat)
    requires p.Valid() && |p.patterns| == 1
    reads p
  {
    AllMarked(ts) && forall h: Bytes, q: nat :: Lone(p, h, q) ==> AdmitsTriple(ts, h, q + at)
  }

  lemma {:induction false} WindowShows(p: SearchPlan, ts: seq<Triple>, n: nat, offset: nat)
    requires p.Valid() && |p.patterns| == 1 && PrefixWidth(p, n, offset) && AllRead(p, ts, n, []) && AllMarked(ts)
    ensures ShowsTriple(p, ts, offset)
  {
    hide SearchPlan.Valid, MatchEnd, AdmitsTriple, Lone;
    forall h: Bytes, q: nat | Lone(p, h, q) ensures AdmitsTriple(ts, h, q + offset) {
      assert Reads(p, n, [], h, q, q + offset);
    }
  }

  /** The window with the fewest triples behind a prefix of fixed width, the last one of
      those. */
  method MakeUnicodeAnchor(p: SearchPlan) returns (anchor: Option<(seq<Triple>, nat)>)
    requires OnePattern(p)
    ensures anchor.Some? ==> ShowsTriple(p, anchor.value.0, anchor.value.1)
  {
    hide SearchPlan.Valid, Filtered.OpaqueContinuation, UnitForms, OneWidth, Units, PrefixWidth, ShowsTriple, AllRead;
    LoneSpelling(p);
    var forms := PatternRawForms(p.mode, p.patterns[0]);
    var offset: nat, fixedPrefix := 0, true;
    anchor := None;
    NoPrefix(p);
    for n := 0 to |forms|
      invariant fixedPrefix ==> PrefixWidth(p, n, offset)
      invariant anchor.Some? ==> ShowsTriple(p, anchor.value.0, anchor.value.1)
    {
      if fixedPrefix {
        var candidate := TripleFromForms(p, forms, n, [], []);
        if candidate.Some? && candidate.value != [] {
          if anchor.None? || |candidate.value| < |anchor.value.0| || (|candidate.value| == |anchor.value.0| && offset > anchor.value.1) {
            WindowShows(p, candidate.value, n, offset);
            anchor := Some((candidate.value, offset));
          }
        }
      }
      SomeForm(p.mode, p.Ps()[0][n], forms[n]);
      var width := |forms[n][0]|;
      var same := IsOneWidth(forms[n], width);
      if !same {
        fixedPrefix := false;
      } else if fixedPrefix {
        PrefixNext(p, forms[n], n, offset, width);
      }
      offset := offset + width;
    }
  }

  // ----- searching

  lemma {:induction false} SkippedNone(p: SearchPlan, ts: seq<Triple>, at: nat, h: Bytes, from: nat, to: nat)
    requires p.Valid() && |p.patterns| == 1 && ShowsTriple(p, ts, at) && NoneShown(p, h, at, from)
    requires forall k :: from <= k < to ==> !AdmitsTriple(ts, h, k)
    ensures NoneShown(p, h, at, to)
  {
    hide SearchPlan.Valid, Lone, AdmitsTriple;
  }

  lemma {:induction false} NothingBehind(p: SearchPlan, ts: seq<Triple>, at: nat, h: Bytes, to: nat)
    requires OnePattern(p) && ShowsTriple(p, ts, at) && NoneShown(p, h, at, to) && to + 2 >= |h|
    ensures p.mode.Valid() && FindFrom(p.mode, h, p.Ps()) == None
  {
    hide SearchPlan.Valid, Filtered.OpaqueContinuation, FindFrom, Lone;
    LoneNone(p, h);
  }

  /** Compare tokens wherever one of the triples stands. */
  method FindUnicodeAnchor(p: SearchPlan, tokens: seq<nat>, ts: seq<Triple>, unicodeAt: nat, h: Bytes) returns (hit: Option<Hit>)
    requires OnePattern(p) && p.toks == [tokens] && ShowsTriple(p, ts, unicodeAt)
    ensures hit == FindFrom(p.mode, h, p.Ps())
  {
    hide SearchPlan.Valid, Filtered.OpaqueContinuation, FindFrom, MatchEnd, ShowsTriple, AdmitsTriple;
    LoneSpelling(p);
    var at: nat := 0;
    while at + 2 < |h|
      invariant NoneShown(p, h, unicodeAt, at)
    {
      var skipped := TripleSkipScalar(h, at, ts);
      SkippedNone(p, ts, unicodeAt, h, at, at + skipped);
      at := at + skipped;
      if at + 2 >= |h| {
        break;
      }
      if at >= unicodeAt {
        var start: nat := at - unicodeAt;
        var matched := MatchesSingleAt(p, tokens, h, start);
        if matched {
          LoneFound(p, h, unicodeAt, start);
          return Some(Hit(0, start));
        }
      }
      at := at + 1;
    }
    NothingBehind(p, ts, unicodeAt, h, at);
    return None;
  }
}
