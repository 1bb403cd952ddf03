/** A byte that every spelling of every pattern contains. A search may begin at the first
    such byte less the widest prefix that can stand before it, even inside a rune. */
module OriginGate {
  import opened Utf8
  import opened Spec
  import opened Greedy
  import opened Answers
  import opened Displacements
  import opened MultiAnchors
  import opened Plan
  import opened RootFilters
  import opened RawMap
  import opened RawMatch
  import opened RawEach
  import Fold
  import TripleFilters

  const MAX_PREFIX := 0xFFFF

  /** The widest spelling of the first `j` runes. */
  ghost function WidestPrefix(t: Fold.Table, runes: seq<int>, j: nat): nat
    requires Fold.Valid(t) && Scalars(runes) && j <= |runes|
  {
    if j == 0 then 0 else WidestPrefix(t, runes, j - 1) + Fold.Widest(t, runes[j - 1])
  }

  lemma {:induction false} DisplacementBound(t: Fold.Table, runes: seq<int>, j: nat, w: nat)
    requires Fold.Valid(t) && Scalars(runes) && j <= |runes| && Displaces(t, runes, 0, j, w)
    ensures w <= WidestPrefix(t, runes, j)
  {
    if j > 0 {
      var rest: nat :| Displaces(t, runes, 0, j - 1, rest) && Widens(t, runes[j - 1], rest, w);
      var x :| Fold.SameOrbit(t, runes[j - 1], x) && IsScalar(x) && w == rest + RuneLen(x);
      DisplacementBound(t, runes, j - 1, rest);
      Fold.WidestInOrbit(t, runes[j - 1], x);
    }
  }

  /** An ASCII rune that folds with nothing else stands in `runes` behind at most `prefix` bytes. */
  ghost predicate GateOf(t: Fold.Table, runes: seq<int>, b: byte, prefix: nat)
    requires Fold.Valid(t) && Scalars(runes)
  {
    IsAscii(b) && Fold.Next(t, b) == b && exists j: nat :: j < |runes| && runes[j] == b && WidestPrefix(t, runes, j) <= prefix
  }

  lemma {:induction false} FixedOrbit(t: Fold.Table, r: int, n: nat)
    requires Fold.Valid(t) && Fold.Next(t, r) == r
    ensures Fold.Iter(t, r, n) == r
  {
    if n > 0 {
      FixedOrbit(t, r, n - 1);
    }
  }

  /** Every match shows the gate byte within the bound. */
  lemma {:induction false} GateShows(m: Mode, h: Bytes, q: nat, a: Pattern, runes: seq<int>, b: byte, prefix: nat) returns (x: nat)
    requires m.Valid() && !m.exact && q <= |h| && MatchEnd(m, h, q, a).Some? && RunesOf(a, runes) && Scalars(runes)
    requires GateOf(m.fold, runes, b, prefix)
    ensures q <= x <= q + prefix && x < |h| && h[x] == b
  {
    hide MatchEnd, FormLen, FormRune, UnitAt, SizeAt, Same;
    var j: nat :| j < |runes| && runes[j] == b && WidestPrefix(m.fold, runes, j) <= prefix;
    MatchNothing(m, h, q, a);
    MatchDisplaces(m, h, q, a, runes, 0, j);
    x := MatchEnd(m, h, q, a[..j]).value;
    DisplacementBound(m.fold, runes, j, x - q);
    TripleFilters.MatchUnit(m, h, q, a, j);
    var r := UnitSpells(m, h, x, b);
    var n: nat :| Fold.Iter(m.fold, b, n) == r;
    FixedOrbit(m.fold, b, n);
    assert h[x..x + 1][0] == h[x];
  }

  // ----- compiling the gate

  /** The fixed ASCII runes of one pattern, each with its narrowest bound. */
  method PatternGates(t: Fold.Table, runes: seq<int>) returns (gates: Option<map<byte, nat>>)
    requires Fold.Valid(t) && Scalars(runes)
    ensures gates.Some? ==> forall b :: b in gates.value ==> GateOf(t, runes, b, gates.value[b])
  {
    hide GateOf;
    var out: map<byte, nat>, prefix: nat := map[], 0;
    for j := 0 to |runes|
      invariant prefix == WidestPrefix(t, runes, j)
      invariant forall b :: b in out ==> GateOf(t, runes, b, out[b])
    {
      var r := runes[j];
      if r < 0x80 && Fold.Next(t, r) == r && (r !in out || prefix < out[r]) {
        GateHere(t, runes, j, prefix);
        out := out[r := prefix];
      }
      var width := Fold.MaxFoldRuneWidth(t, r);
      prefix := prefix + width;
      if prefix > MAX_PREFIX {
        return None;
      }
    }
    return Some(out);
  }

  lemma {:induction false} GateHere(t: Fold.Table, runes: seq<int>, j: nat, prefix: nat)
    requires Fold.Valid(t) && Scalars(runes) && j < |runes| && runes[j] < 0x80 && Fold.Next(t, runes[j]) == runes[j]
    requires prefix == WidestPrefix(t, runes, j)
    ensures GateOf(t, runes, runes[j], prefix)
  {
  }

  /** All spellings of the first `n` patterns contain `b`, behind at most `prefix` bytes. */
  ghost predicate Gate(p: SearchPlan, n: nat, b: byte, prefix: nat)
    reads p
  {
    p.mode.Valid() && forall i: nat :: i < n && i < |p.patterns| ==> Gated(p, i, b, prefix)
  }

  ghost predicate Gated(p: SearchPlan, i: nat, b: byte, prefix: nat)
    reads p
  {
    exists runes :: GatedBy(p, i, runes, b, prefix)
  }

  ghost predicate GatedBy(p: SearchPlan, i: nat, runes: seq<int>, b: byte, prefix: nat)
    reads p
  {
    p.mode.Valid() && i < |p.Ps()| && RunesOf(p.Ps()[i], runes) && Scalars(runes) && GateOf(p.mode.fold, runes, b, prefix)
  }

  lemma {:induction false} GateWidens(p: SearchPlan, n: nat, b: byte, prefix: nat, prefix': nat)
    requires Gate(p, n, b, prefix) && prefix <= prefix'
    ensures Gate(p, n, b, prefix')
  {
    forall i: nat | i < n && i < |p.patterns| ensures Gated(p, i, b, prefix') {
      assert Gated(p, i, b, prefix);
      var runes :| GatedBy(p, i, runes, b, prefix);
      assert GatedBy(p, i, runes, b, prefix');
    }
  }

  lemma {:induction false} GateNext(p: SearchPlan, n: nat, b: byte, prefix: nat, runes: seq<int>, local: nat)
    requires Gate(p, n, b, prefix) && n < |p.Ps()| && GatedBy(p, n, runes, b, local)
    ensures Gate(p, n + 1, b, Max(prefix, local))
  {
    GateWidens(p, n, b, prefix, Max(prefix, local));
    assert GatedBy(p, n, runes, b, Max(prefix, local));
    assert Gated(p, n, b, Max(prefix, local));
  }

  /** The bytes common to all patterns, with bounds that hold for all. */
  method CommonGates(p: SearchPlan) returns (gates: map<byte, nat>)
    requires p.Valid() && !p.mode.exact
    ensures forall b :: b in gates ==> Gate(p, |p.patterns|, b, gates[b])
  {
    hide AllRows, Gate, RunesOf, GateOf, GatedBy;
    gates := map b: byte | IsAscii(b) :: 0;
    forall b: byte ensures Gate(p, 0, b, 0) {
      GateOfNothing(p, b);
    }
    for id := 0 to |p.patterns|
      invariant forall b :: b in gates ==> Gate(p, id, b, gates[b])
    {
      var runes := DecodeRunes(p, id);
      if runes.None? {
        return map[];
      }
      var local := PatternGates(p.mode.fold, runes.value);
      if local.None? {
        return map[];
      }
      forall b | b in gates && b in local.value ensures Gate(p, id + 1, b, Max(gates[b], local.value[b])) {
        GatedHere(p, id, runes.value, b, local.value[b]);
        GateNext(p, id, b, gates[b], runes.value, local.value[b]);
      }
      gates := map b | b in gates && b in local.value :: Max(gates[b], local.value[b]);
    }
  }

  lemma {:induction false} GateOfNothing(p: SearchPlan, b: byte)
    requires p.mode.Valid()
    ensures Gate(p, 0, b, 0)
  {
  }

  lemma {:induction false} GatedHere(p: SearchPlan, i: nat, runes: seq<int>, b: byte, prefix: nat)
    requires p.mode.Valid() && i < |p.Ps()| && RunesOf(p.Ps()[i], runes) && Scalars(runes) && GateOf(p.mode.fold, runes, b, prefix)
    ensures GatedBy(p, i, runes, b, prefix)
  {
  }

  /** The cheapest common byte; which one is a matter of cost. */
  method RawByteOriginGateFor(p: SearchPlan, score: byte -> nat) returns (gate: Option<(byte, nat)>)
    requires p.Valid() && !p.mode.exact
    ensures gate.Some? ==> Gate(p, |p.patterns|, gate.value.0, gate.value.1)
  {
    hide AllRows, Gate;
    var gates := CommonGates(p);
    gate := None;
    for b: int := 0 to 0x80
      invariant gate.Some? ==> gate.value.0 in gates && gate.value.1 == gates[gate.value.0]
    {
      if b in gates && (gate.None? || score(b) < score(gate.value.0) || (score(b) == score(gate.value.0) && gates[b] < gate.value.1)) {
        gate := Some((b, gates[b]));
      }
    }
  }

  // ----- searching from the gate

  lemma {:induction false} GatedOcc(p: SearchPlan, h: Bytes, b: byte, prefix: nat, q: nat, i: nat) returns (x: nat)
    requires p.Valid() && !p.mode.exact && Gate(p, |p.patterns|, b, prefix) && Occ(p.mode, h, p.Ps(), q, i)
    ensures q <= x <= q + prefix && x < |h| && h[x] == b
  {
    hide AllRows, GateOf, RunesOf, Reaches, MatchEnd;
    assert Gated(p, i, b, prefix);
    var runes :| GatedBy(p, i, runes, b, prefix);
    x := GateShows(p.mode, h, q, p.Ps()[i], runes, b, prefix);
  }

  /** The first gate byte at or after `at`, or the end. */
  method LiteralSkip(h: Bytes, needle: byte) returns (at: nat)
    ensures at <= |h| && (forall x :: 0 <= x < at ==> h[x] != needle) && (at < |h| ==> h[at] == needle)
  {
    at := 0;
    while at < |h| && h[at] != needle
      invariant at <= |h| && forall x :: 0 <= x < at ==> h[x] != needle
    {
      at := at + 1;
    }
  }

  /** Nothing starts before the first gate byte less the bound. */
  lemma {:induction false} BeforeGate(p: SearchPlan, h: Bytes, b: byte, prefix: nat, at: nat)
    requires p.Valid() && !p.mode.exact && Gate(p, |p.patterns|, b, prefix) && at <= |h|
    requires forall x :: 0 <= x < at ==> h[x] != b
    ensures NothingBefore(p.mode, h, p.Ps(), if at < prefix then 0 else at - prefix)
    ensures at == |h| ==> forall q: nat, i: nat :: !Occ(p.mode, h, p.Ps(), q, i)
  {
    hide AllRows, Gate, Occ;
    forall q: nat, i: nat | Occ(p.mode, h, p.Ps(), q, i) ensures at < |h| && at <= q + prefix {
      var x := GatedOcc(p, h, b, prefix, q, i);
    }
  }

  method FindRawByteOrigin(p: SearchPlan, table: seq<nat>, f: Filter, h: Bytes, gate: (byte, nat)) returns (hit: Option<Hit>)
    requires p.Valid() && Mapped(p, table) && Armed(p, f) && Gate(p, |p.patterns|, gate.0, gate.1)
    ensures hit == FindFrom(p.mode, h, p.Ps())
  {
    hide AllRows, Mapped, Armed, FindFrom, Gate, Occ, End, RunesOnly;
    ghost var m, ps := p.mode, p.Ps();
    MappedFolded(p, table);
    ArmedRunes(p, f);
    var at := LiteralSkip(h, gate.0);
    BeforeGate(p, h, gate.0, gate.1, at);
    WholeAnswer(m, h, ps, |h|);
    if at == |h| {
      hit := None;
      AnswerUnique(m, h, ps, 0, |h|, hit, FindFrom(m, h, ps));
      return;
    }
    var from := if at < gate.1 then 0 else at - gate.1;
    var found := FindRawByteFixedAnchored(p, table, f, h[from..]);
    hit := Shift(found, from);
    SliceAnswerAnywhere(m, h, ps, from, |h|);
    assert h[from..|h|] == h[from..];
    AnswerFromStart(m, h, ps, from, |h|, hit);
    AnswerUnique(m, h, ps, 0, |h|, hit, FindFrom(m, h, ps));
  }
}
