/** How far apart the units of a pattern can stand in a source: folding changes widths,
    so a displacement is one of a small set, which the anchor compiler keeps exactly. */
module Displacements {
  import opened Utf8
  import opened Spec
  import Fold
  import TripleFilters

  const MAX_OFFSETS := 4
  const MAX_FORMS := 4

  predicate Scalars(runes: seq<int>) {
    forall j :: 0 <= j < |runes| ==> IsScalar(runes[j])
  }

  /** Some spelling of `r` leads from the displacement `rest` to `w`. */
  ghost predicate Widens(t: Fold.Table, r: int, rest: nat, w: nat)
    requires Fold.Valid(t)
  {
    exists x :: Fold.SameOrbit(t, r, x) && IsScalar(x) && w == rest + RuneLen(x)
  }

  /** The runes from `u` up to `v` have a spelling of `w` bytes. */
  ghost predicate Displaces(t: Fold.Table, runes: seq<int>, u: nat, v: nat, w: nat)
    requires Fold.Valid(t) && u <= v <= |runes|
    decreases v
  {
    if u == v then w == 0
    else
      var last: nat := v - 1;
      exists rest: nat :: Displaces(t, runes, u, last, rest) && Widens(t, runes[last], rest, w)
  }

  /** `ws` is exactly the set of displacements from `u` to `v`. */
  ghost predicate WidthsOf(t: Fold.Table, runes: seq<int>, u: nat, v: nat, ws: seq<nat>)
    requires Fold.Valid(t) && u <= v <= |runes|
  {
    forall w: nat :: Displaces(t, runes, u, v, w) <==> w in ws
  }

  lemma {:induction false} NoWidth(t: Fold.Table, runes: seq<int>, u: nat)
    requires Fold.Valid(t) && u <= |runes|
    ensures WidthsOf(t, runes, u, u, [0])
  {
  }

  /** `w` is a width of `ws` made longer by a spelling of `r`. */
  ghost predicate Stretched(t: Fold.Table, r: int, ws: seq<nat>, w: nat)
    requires Fold.Valid(t)
  {
    exists v: nat :: v in ws && Widens(t, r, v, w)
  }

  lemma {:induction false} WidthsGrow(t: Fold.Table, runes: seq<int>, u: nat, v: nat, ws: seq<nat>, next: seq<nat>)
    requires Fold.Valid(t) && u <= v < |runes| && WidthsOf(t, runes, u, v, ws)
    requires forall w: nat :: Stretched(t, runes[v], ws, w) <==> w in next
    ensures WidthsOf(t, runes, u, v + 1, next)
  {
    forall w: nat ensures Displaces(t, runes, u, v + 1, w) <==> Stretched(t, runes[v], ws, w) {
      if Displaces(t, runes, u, v + 1, w) {
        var rest: nat :| Displaces(t, runes, u, v, rest) && Widens(t, runes[v], rest, w);
        assert rest in ws;
      }
      if Stretched(t, runes[v], ws, w) {
        var rest: nat :| rest in ws && Widens(t, runes[v], rest, w);
        assert Displaces(t, runes, u, v, rest);
      }
    }
  }

  /** `w` comes from one of the first members, or from the member `k` and one of the
      first `i` widths. */
  ghost predicate Built(members: seq<int>, ws: seq<nat>, k: nat, i: nat, w: nat)
    requires Scalars(members)
  {
    exists k': nat, i': nat :: k' < |members| && i' < |ws| && (k' < k || (k' == k && i' < i)) && w == ws[i'] + RuneLen(members[k'])
  }

  lemma {:induction false} BuiltStep(members: seq<int>, ws: seq<nat>, k: nat, i: nat, w: nat)
    requires Scalars(members) && k < |members| && i < |ws|
    ensures Built(members, ws, k, i + 1, w) <==> Built(members, ws, k, i, w) || w == ws[i] + RuneLen(members[k])
  {
    if w == ws[i] + RuneLen(members[k]) {
      assert k < |members| && i < |ws|;
    }
  }

  lemma {:induction false} BuiltRow(members: seq<int>, ws: seq<nat>, k: nat, w: nat)
    requires Scalars(members) && k < |members|
    ensures Built(members, ws, k, |ws|, w) <==> Built(members, ws, k + 1, 0, w)
  {
  }

  /** The widths that come of `ws` and `r` are few, and a byte holds each. */
  ghost predicate WidthsFit(t: Fold.Table, r: int, ws: seq<nat>)
    requires Fold.Valid(t)
  {
    exists room: seq<nat> :: |room| <= 4 && forall w: nat :: Stretched(t, r, ws, w) ==> w in room && w <= 0xFF
  }

  /** Some width does not fit. */
  lemma {:induction false} NoRoom(t: Fold.Table, r: int, ws: seq<nat>, out: seq<nat>, value: nat)
    requires Fold.Valid(t) && (forall w :: w in out ==> Stretched(t, r, ws, w)) && Stretched(t, r, ws, value)
    requires value !in out && forall i, j :: 0 <= i < j < |out| ==> out[i] != out[j]
    requires value > 0xFF || |out| == MAX_OFFSETS
    ensures !WidthsFit(t, r, ws)
  {
    hide Stretched;
    if WidthsFit(t, r, ws) {
      var room: seq<nat> :| |room| <= 4 && forall w: nat :: Stretched(t, r, ws, w) ==> w in room && w <= 0xFF;
      Fold.Pigeons(out + [value], room);
      assert false;
    }
  }

  /** A set of widths as far as it has been collected. */
  predicate Kept(out: seq<nat>) {
    |out| <= 4 && (forall w :: w in out ==> w <= 0xFF) && forall i, j :: 0 <= i < j < |out| ==> out[i] != out[j]
  }

  lemma {:induction false} BuiltAll(members: seq<int>, ws: seq<nat>, k: nat, i: nat, w: nat)
    requires Scalars(members) && k < |members| && i <= |ws| && Built(members, ws, k, i, w)
    ensures Built(members, ws, |members|, 0, w)
  {
  }

  lemma {:induction false} Roomy(t: Fold.Table, r: int, ws: seq<nat>, out: seq<nat>)
    requires Fold.Valid(t) && Kept(out) && forall w: nat :: Stretched(t, r, ws, w) <==> w in out
    ensures WidthsFit(t, r, ws)
  {
  }

  /** Extend a set of widths by every spelling of a rune; fails exactly when the set would
      grow past its capacity or a width past a byte. */
  method AddRuneWidths(t: Fold.Table, r: int, ws: seq<nat>) returns (next: Option<seq<nat>>)
    requires Fold.Valid(t) && IsScalar(r)
    ensures next.Some? <==> WidthsFit(t, r, ws)
    ensures next.Some? ==> |next.value| <= 4 && forall w: nat :: Stretched(t, r, ws, w) <==> w in next.value
  {
    hide Built, Stretched, WidthsFit;
    var members := Fold.Orbit(t, r);
    MembersScalar(t, r, members);
    var out: seq<nat> := [];
    forall w: nat ensures !Built(members, ws, 0, 0, w) {
      NothingBuilt(members, ws, w);
    }
    for k := 0 to |members|
      invariant Kept(out) && forall w: nat :: Built(members, ws, k, 0, w) <==> w in out
    {
      for i := 0 to |ws|
        invariant Kept(out) && forall w: nat :: Built(members, ws, k, i, w) <==> w in out
      {
        var value: nat := ws[i] + RuneLen(members[k]);
        forall w: nat ensures Built(members, ws, k, i + 1, w) <==> Built(members, ws, k, i, w) || w == value {
          BuiltStep(members, ws, k, i, w);
        }
        forall w: nat | w in out || w == value ensures Stretched(t, r, ws, w) {
          assert Built(members, ws, k, i + 1, w);
          BuiltAll(members, ws, k, i + 1, w);
          AllBuilt(t, r, members, ws, w);
        }
        if value > 0xFF {
          NoRoom(t, r, ws, out, value);
          return None;
        }
        if value !in out {
          if |out| == MAX_OFFSETS {
            NoRoom(t, r, ws, out, value);
            return None;
          }
          out := out + [value];
        }
      }
      forall w: nat ensures Built(members, ws, k, |ws|, w) <==> Built(members, ws, k + 1, 0, w) {
        BuiltRow(members, ws, k, w);
      }
    }
    forall w: nat ensures Built(members, ws, |members|, 0, w) <==> Stretched(t, r, ws, w) {
      AllBuilt(t, r, members, ws, w);
    }
    Roomy(t, r, ws, out);
    return Some(out);
  }

  lemma {:induction false} NothingBuilt(members: seq<int>, ws: seq<nat>, w: nat)
    requires Scalars(members)
    ensures !Built(members, ws, 0, 0, w)
  {
  }

  lemma {:induction false} MembersScalar(t: Fold.Table, r: int, members: seq<int>)
    requires Fold.Valid(t) && IsScalar(r) && forall x :: x in members <==> Fold.SameOrbit(t, r, x)
    ensures Scalars(members)
  {
    forall j | 0 <= j < |members| ensures IsScalar(members[j]) {
      assert members[j] in members;
      Fold.OrbitScalar(t, r, members[j]);
    }
  }

  lemma {:induction false} AllBuilt(t: Fold.Table, r: int, members: seq<int>, ws: seq<nat>, w: nat)
    requires Fold.Valid(t) && Scalars(members) && forall x :: x in members <==> Fold.SameOrbit(t, r, x)
    ensures Built(members, ws, |members|, 0, w) <==> Stretched(t, r, ws, w)
  {
    if Built(members, ws, |members|, 0, w) {
      var k: nat, i: nat :| k < |members| && i < |ws| && w == ws[i] + RuneLen(members[k]);
      assert members[k] in members && ws[i] in ws;
      assert Widens(t, r, ws[i], w);
    }
    if Stretched(t, r, ws, w) {
      var v: nat :| v in ws && Widens(t, r, v, w);
      var x :| Fold.SameOrbit(t, r, x) && IsScalar(x) && w == v + RuneLen(x);
      assert x in members;
      var k :| 0 <= k < |members| && members[k] == x;
      var i :| 0 <= i < |ws| && ws[i] == v;
    }
  }

  // ----- two-byte spellings

  /** `pairs` is exactly the set of spellings of `r`, all of two bytes. */
  ghost predicate PairsOf(t: Fold.Table, r: int, pairs: seq<Bytes>)
    requires Fold.Valid(t)
  {
    && (forall x :: Fold.SameOrbit(t, r, x) ==> IsScalar(x) && RuneLen(x) == 2 && Encode(x) in pairs)
    && (forall f :: f in pairs ==> |f| == 2 && FormOf(t, r, f))
  }

  ghost predicate FormOf(t: Fold.Table, r: int, f: Bytes)
    requires Fold.Valid(t)
  {
    exists x :: Fold.SameOrbit(t, r, x) && IsScalar(x) && f == Encode(x)
  }

  /** Different scalars are spelled differently. */
  lemma {:induction false} EncodeOnce(x: int, y: int)
    requires IsScalar(x) && IsScalar(y) && Encode(x) == Encode(y)
    ensures x == y
  {
    hide Encode, FormLen, FormRune;
    assert Encode(x)[0..0 + RuneLen(x)] == Encode(x) && Encode(y)[0..0 + RuneLen(y)] == Encode(y);
    DecodeEncode(Encode(x), 0, x);
    DecodeEncode(Encode(y), 0, y);
  }

  /** The spellings of a rune, when all of them take two bytes and there are few enough. */
  method PairSetFor(t: Fold.Table, r: int) returns (pairs: Option<seq<Bytes>>)
    requires Fold.Valid(t) && IsScalar(r)
    ensures pairs.Some? ==> PairsOf(t, r, pairs.value)
    ensures pairs.Some? <==> Fold.Period(t, r) <= 4 && forall x :: Fold.SameOrbit(t, r, x) ==> IsScalar(x) && RuneLen(x) == 2
  {
    hide Encode;
    var members := Fold.Orbit(t, r);
    MembersScalar(t, r, members);
    var out: seq<Bytes> := [];
    for k := 0 to |members|
      invariant |out| == k <= MAX_FORMS
      invariant forall j :: 0 <= j < k ==> RuneLen(members[j]) == 2 && out[j] == Encode(members[j])
    {
      assert members[k] in members;
      if RuneLen(members[k]) != 2 {
        return None;
      }
      if Encode(members[k]) in out {
        var j :| 0 <= j < k && Encode(members[k]) == out[j];
        EncodeOnce(members[k], members[j]);
        assert false;
      } else {
        if |out| == MAX_FORMS {
          return None;
        }
        out := out + [Encode(members[k])];
      }
    }
    forall x | Fold.SameOrbit(t, r, x) ensures IsScalar(x) && RuneLen(x) == 2 && Encode(x) in out {
      assert x in members;
      var k :| 0 <= k < |members| && members[k] == x;
      assert out[k] == Encode(x);
    }
    forall f | f in out ensures |f| == 2 && FormOf(t, r, f) {
      var k :| 0 <= k < |out| && out[k] == f;
      assert members[k] in members;
    }
    return Some(out);
  }

  predicate PairHere(pairs: seq<Bytes>, h: Bytes, at: nat) {
    at + 1 < |h| && h[at..at + 2] in pairs
  }

  // ----- matches keep to the displacements

  ghost predicate RunesOf(a: Pattern, runes: seq<int>) {
    |a| == |runes| && forall j :: 0 <= j < |a| ==> a[j] == Rune(runes[j]) && IsScalar(runes[j])
  }

  /** A unit that matches a rune spells a member of its orbit. */
  lemma {:induction false} UnitSpells(m: Mode, h: Bytes, e: nat, r: int) returns (x: int)
    requires m.Valid() && !m.exact && e < |h| && Same(m, UnitAt(m, h, e), Rune(r))
    ensures IsScalar(x) && Fold.SameOrbit(m.fold, r, x) && SizeAt(m, h, e) == RuneLen(x)
    ensures h[e..e + RuneLen(x)] == Encode(x)
  {
    x := FormRune(h, e);
    EncodeDecode(h, e);
    Fold.OrbitSymmetric(m.fold, x, r);
  }

  /** Between two units of a match lies one of the displacements of the pattern. */
  lemma {:induction false} MatchDisplaces(m: Mode, h: Bytes, q: nat, a: Pattern, runes: seq<int>, u: nat, v: nat)
    requires m.Valid() && !m.exact && q <= |h| && MatchEnd(m, h, q, a).Some? && RunesOf(a, runes) && u <= v <= |a|
    ensures MatchEnd(m, h, q, a[..u]).Some? && MatchEnd(m, h, q, a[..v]).Some?
    ensures MatchEnd(m, h, q, a[..u]).value <= MatchEnd(m, h, q, a[..v]).value
    ensures Displaces(m.fold, runes, u, v, MatchEnd(m, h, q, a[..v]).value - MatchEnd(m, h, q, a[..u]).value)
    decreases v
  {
    hide FormLen, FormRune, UnitAt, SizeAt, MatchEnd, Same;
    if u == v {
      if u < |a| {
        TripleFilters.MatchUnit(m, h, q, a, u);
      } else {
        assert a[..u] == a;
      }
    } else {
      MatchDisplaces(m, h, q, a, runes, u, v - 1);
      TripleFilters.MatchUnit(m, h, q, a, v - 1);
      var e := MatchEnd(m, h, q, a[..v - 1]).value;
      var x := UnitSpells(m, h, e, runes[v - 1]);
      var rest: nat := e - MatchEnd(m, h, q, a[..u]).value;
      assert Widens(m.fold, runes[v - 1], rest, rest + RuneLen(x));
      assert a[..v - 1 + 1] == a[..v];
    }
  }

  /** A unit of a match whose rune has only two-byte spellings is one of them. */
  lemma {:induction false} MatchPair(m: Mode, h: Bytes, q: nat, a: Pattern, runes: seq<int>, k: nat, pairs: seq<Bytes>)
    requires m.Valid() && !m.exact && q <= |h| && MatchEnd(m, h, q, a).Some? && RunesOf(a, runes) && k < |a|
    requires PairsOf(m.fold, runes[k], pairs)
    ensures MatchEnd(m, h, q, a[..k]).Some? && PairHere(pairs, h, MatchEnd(m, h, q, a[..k]).value)
  {
    TripleFilters.MatchUnit(m, h, q, a, k);
    var x := UnitSpells(m, h, MatchEnd(m, h, q, a[..k]).value, runes[k]);
  }
}
