/** Packed confirmations of one literal: the spellings of its units laid out in a short
    byte string. The fixed layout checks parts at fixed offsets in any order; the variable
    one moves a cursor by whichever spelling matched. Both accept exactly the matches. */
module Confirm {
  import opened Utf8
  import opened Spec
  import opened Displacements
  import Fold
  import TripleFilters

  const MAX_PARTS := 20
  const PART_SIZE := 10
  const SKIPPED_PARTS := 2
  const SKIPPED_AT := (MAX_PARTS - SKIPPED_PARTS) * PART_SIZE
  const MAX_LENGTH_AT := MAX_PARTS * PART_SIZE
  const ANCHOR_AT := MAX_LENGTH_AT + 1
  const N_AT := MAX_LENGTH_AT + 2
  const VALID_AT := MAX_LENGTH_AT + 3
  const PACKED_SIZE := MAX_LENGTH_AT + 4
  const MIN_AT := PACKED_SIZE
  const VARIABLE_SIZE := PACKED_SIZE + 1
  const VARIABLE_FLAG := 2

  // ----- the header

  predicate Variable(c: Bytes) {
    |c| > VALID_AT && c[VALID_AT] / VARIABLE_FLAG % 2 == 1
  }

  function SkippedN(c: Bytes): nat
    requires |c| > VALID_AT
  {
    c[VALID_AT] / 2
  }

  predicate Valid(c: Bytes) {
    && (|c| == PACKED_SIZE || |c| == VARIABLE_SIZE)
    && c[VALID_AT] % 2 == 1 && c[MAX_LENGTH_AT] != 0 && c[ANCHOR_AT] < c[MAX_LENGTH_AT]
    && if Variable(c) then |c| == VARIABLE_SIZE && 0 < c[N_AT] <= MAX_PARTS && 0 < c[MIN_AT] <= c[MAX_LENGTH_AT]
       else |c| == PACKED_SIZE && (SkippedN(c) == 0 || SkippedN(c) == SKIPPED_PARTS) && c[N_AT] + SkippedN(c) <= MAX_PARTS &&
            (c[N_AT] != 0 || SkippedN(c) != 0)
  }

  /** The flag byte of a fixed layout never reads as variable, that of a variable one
      always does: a skipped count is 0 or 2, so it never sets the flag's bit. */
  lemma {:induction false} FlagsApart(c: Bytes)
    requires Valid(c)
    ensures Variable(c) <==> |c| == VARIABLE_SIZE
    ensures !Variable(c) ==> c[VALID_AT] == 1 || c[VALID_AT] == 5
  {
  }

  function MinLength(c: Bytes): nat
    requires |c| > VALID_AT
  {
    if Variable(c) && |c| == VARIABLE_SIZE then c[MIN_AT] else c[MAX_LENGTH_AT]
  }

  // ----- the spellings of a unit

  /** `forms` lists exactly the encodings of the members of the orbit of `r`. */
  ghost predicate FormsFor(t: Fold.Table, r: int, forms: seq<Bytes>)
    requires Fold.Valid(t)
  {
    && (forall x :: Fold.SameOrbit(t, r, x) ==> IsScalar(x) && Encode(x) in forms)
    && (forall f :: f in forms ==> FormOf(t, r, f))
  }

  method RawForms(t: Fold.Table, r: int) returns (forms: seq<Bytes>)
    requires Fold.Valid(t) && IsScalar(r)
    ensures FormsFor(t, r, forms) && forms != []
  {
    hide Encode;
    var members := Fold.Orbit(t, r);
    MembersScalar(t, r, members);
    forms := [];
    for k := 0 to |members|
      invariant forall j :: 0 <= j < k ==> Encode(members[j]) in forms
      invariant forall f :: f in forms ==> FormOf(t, r, f)
    {
      assert members[k] in members;
      assert FormOf(t, r, Encode(members[k]));
      if Encode(members[k]) !in forms {
        forms := forms + [Encode(members[k])];
      }
    }
    forall x | Fold.SameOrbit(t, r, x) ensures IsScalar(x) && Encode(x) in forms {
      assert x in members;
      var k :| 0 <= k < |members| && members[k] == x;
    }
  }

  /** A unit of the source matches a rune exactly when one of its spellings stands there,
      and that spelling is the whole unit. */
  lemma {:induction false} FormIsUnit(m: Mode, h: Bytes, at: nat, r: int, forms: seq<Bytes>)
    requires m.Valid() && !m.exact && IsScalar(r) && FormsFor(m.fold, r, forms)
    ensures forall f :: f in forms && StandsAt(h, at, f) ==>
              at < |h| && Same(m, UnitAt(m, h, at), Rune(r)) && SizeAt(m, h, at) == |f|
    ensures at < |h| && Same(m, UnitAt(m, h, at), Rune(r)) ==> h[at..at + SizeAt(m, h, at)] in forms
  {
    hide FormLen, FormRune, Encode;
    forall f | f in forms && StandsAt(h, at, f) ensures at < |h| && Same(m, UnitAt(m, h, at), Rune(r)) && SizeAt(m, h, at) == |f| {
      var x :| Fold.SameOrbit(m.fold, r, x) && IsScalar(x) && f == Encode(x);
      DecodeEncode(h, at, x);
      Fold.OrbitSymmetric(m.fold, r, x);
    }
    if at < |h| && Same(m, UnitAt(m, h, at), Rune(r)) {
      var x := UnitSpells(m, h, at, r);
    }
  }

  lemma {:induction false} FormBytes(t: Fold.Table, r: int, forms: seq<Bytes>, f: Bytes)
    requires Fold.Valid(t) && FormsFor(t, r, forms) && f in forms
    ensures 1 <= |f| <= 4 && (|f| == 1 <==> f[0] < 0xC0) && (|f| <= 2 <==> f[0] < 0xE0)
  {
  }

  // ----- the variable layout

  /** The width that the first byte of a stored spelling implies. */
  function StoredWidth(first: byte): nat {
    if first >= 0xE0 then 3 else if first >= 0xC0 then 2 else 1
  }

  /** A part of a variable layout stores the spellings of a unit. */
  ghost predicate VariablePart(c: Bytes, partAt: nat, forms: seq<Bytes>) {
    && partAt + PART_SIZE <= |c| && 0 < |forms| <= 3 && c[partAt + 9] == |forms|
    && forall i: nat :: i < |forms| ==> VariableForm(c, partAt + i * 3, forms[i])
  }

  ghost predicate VariableForm(c: Bytes, at: nat, f: Bytes) {
    at + 3 <= |c| && 1 <= |f| <= 3 && c[at..at + |f|] == f
  }

  /** The confirmation stores the spellings of all the runes, in order, and the widths
      between which every match lies. */
  ghost predicate VariableOf(c: Bytes, t: Fold.Table, runes: seq<int>, all: seq<seq<Bytes>>)
    requires Fold.Valid(t)
  {
    && Valid(c) && Variable(c) && |all| == |runes| == c[N_AT] as int
    && c[MIN_AT] as int == LeastWidth(all) && c[MAX_LENGTH_AT] as int == MostWidth(all)
    && (forall k: nat :: k < |runes| ==> VariablePart(c, k * PART_SIZE, all[k]))
    && forall k: nat :: k < |runes| ==> FormsFor(t, runes[k], all[k])
  }

  function Shortest(forms: seq<Bytes>): (n: nat)
    ensures forall f :: f in forms ==> n <= |f|
  {
    if forms == [] then 5
    else
      var last := forms[|forms| - 1];
      var rest := Shortest(forms[..|forms| - 1]);
      assert forall f :: f in forms ==> f == last || f in forms[..|forms| - 1];
      if |last| < rest then |last| else rest
  }

  function Longest(forms: seq<Bytes>): (n: nat)
    ensures forall f :: f in forms ==> |f| <= n
  {
    if forms == [] then 0
    else
      var last := forms[|forms| - 1];
      var rest := Longest(forms[..|forms| - 1]);
      assert forall f :: f in forms ==> f == last || f in forms[..|forms| - 1];
      if |last| > rest then |last| else rest
  }

  function LeastWidth(all: seq<seq<Bytes>>): nat {
    if all == [] then 0 else Shortest(all[0]) + LeastWidth(all[1..])
  }

  function MostWidth(all: seq<seq<Bytes>>): nat {
    if all == [] then 0 else Longest(all[0]) + MostWidth(all[1..])
  }

  lemma {:induction false} UnitWithin(m: Mode, h: Bytes, at: nat, r: int, forms: seq<Bytes>)
    requires m.Valid() && !m.exact && at < |h| && IsScalar(r) && FormsFor(m.fold, r, forms) && Same(m, UnitAt(m, h, at), Rune(r))
    ensures Shortest(forms) <= SizeAt(m, h, at) <= Longest(forms)
  {
    hide FormLen, FormRune, UnitAt, SizeAt, Same, Encode, FormsFor;
    FormIsUnit(m, h, at, r, forms);
    var f := h[at..at + SizeAt(m, h, at)];
    assert f in forms;
  }

  /** A match is at least as wide as its shortest spellings together, and at most as wide as its longest. */
  lemma {:induction false} MatchWithin(m: Mode, h: Bytes, at: nat, a: Pattern, runes: seq<int>, all: seq<seq<Bytes>>)
    requires m.Valid() && !m.exact && at <= |h| && RunesOf(a, runes) && |all| == |runes| && MatchEnd(m, h, at, a).Some?
    requires forall k: nat :: k < |runes| ==> FormsFor(m.fold, runes[k], all[k])
    ensures at + LeastWidth(all) <= MatchEnd(m, h, at, a).value <= at + MostWidth(all)
    decreases |a|
  {
    hide FormLen, FormRune, UnitAt, SizeAt, Same, Encode, FormsFor, Shortest, Longest;
    if a != [] {
      UnitWithin(m, h, at, runes[0], all[0]);
      var next := at + SizeAt(m, h, at);
      assert MatchEnd(m, h, at, a) == MatchEnd(m, h, next, a[1..]);
      MatchWithin(m, h, next, a[1..], runes[1..], all[1..]);
    }
  }

  /** Read one stored spelling and compare it. */
  method CompareForm(c: Bytes, formAt: nat, h: Bytes, at: nat, ghost f: Bytes) returns (equal: bool, width: nat)
    requires VariableForm(c, formAt, f) && at <= |h| && (|f| == 1 <==> f[0] < 0xC0) && (|f| <= 2 <==> f[0] < 0xE0)
    ensures width == |f| && (equal <==> StandsAt(h, at, f))
  {
    assert c[formAt] == c[formAt..formAt + |f|][0];
    width := StoredWidth(c[formAt]);
    if |h| - at < width {
      return false, width;
    }
    equal := true;
    for i := 0 to width
      invariant equal <==> h[at..at + i] == f[..i]
    {
      assert c[formAt + i] == c[formAt..formAt + |f|][i] == f[i];
      assert h[at..at + i + 1] == h[at..at + i] + [h[at + i]] && f[..i + 1] == f[..i] + [f[i]];
      equal := equal && h[at + i] == c[formAt + i];
    }
    assert f[..width] == f;
  }

  /** The spelling of a part that stands at `at`. */
  method MatchPart(c: Bytes, partAt: nat, h: Bytes, at: nat, ghost t: Fold.Table, ghost r: int, ghost forms: seq<Bytes>) returns (matched: bool, width: nat)
    requires Fold.Valid(t) && VariablePart(c, partAt, forms) && FormsFor(t, r, forms) && at <= |h|
    ensures matched <==> exists f :: f in forms && StandsAt(h, at, f)
    ensures matched ==> exists f :: f in forms && StandsAt(h, at, f) && width == |f|
  {
    hide StandsAt, FormsFor;
    for form := 0 to c[partAt + 9]
      invariant forall i: nat :: i < form ==> !StandsAt(h, at, forms[i])
    {
      assert VariableForm(c, partAt + form * 3, forms[form]);
      FormBytes(t, r, forms, forms[form]);
      var equal, size := CompareForm(c, partAt + form * 3, h, at, forms[form]);
      if equal {
        assert forms[form] in forms;
        return true, size;
      }
    }
    forall f | f in forms ensures !StandsAt(h, at, f) {
      var i: nat :| i < |forms| && forms[i] == f;
    }
    return false, 0;
  }

  /** The cursor of a variable confirmation follows the match unit by unit. */
  method MatchVariable(c: Bytes, h: Bytes, start: nat, ghost m: Mode, ghost a: Pattern, ghost runes: seq<int>, ghost all: seq<seq<Bytes>>)
    returns (width: Option<nat>)
    requires m.Valid() && !m.exact && start <= |h| && RunesOf(a, runes) && VariableOf(c, m.fold, runes, all)
    ensures MatchEnd(m, h, start, a) == if width.Some? then Some(start + width.value) else None
  {
    hide FormLen, FormRune, UnitAt, SizeAt, Same, Encode, FormsFor, StandsAt, Valid, VariablePart, LeastWidth, MostWidth;
    var at := start;
    assert a[0..] == a;
    for part := 0 to c[N_AT]
      invariant start <= at <= |h| && MatchEnd(m, h, start, a) == MatchEnd(m, h, at, a[part..])
    {
      assert a[part..][0] == a[part] == Rune(runes[part]) && a[part..][1..] == a[part + 1..];
      var matched, size := MatchPart(c, part * PART_SIZE, h, at, m.fold, runes[part], all[part]);
      FormIsUnit(m, h, at, runes[part], all[part]);
      if !matched {
        if at < |h| {
          UnitStands(m, h, at);
        }
        return None;
      }
      at := at + size;
    }
    assert a[c[N_AT]..] == [];
    return Some(at - start);
  }

  lemma {:induction false} UnitStands(m: Mode, h: Bytes, at: nat)
    requires at < |h|
    ensures StandsAt(h, at, h[at..at + SizeAt(m, h, at)])
  {
  }

  // ----- the fixed layout

  /** A part of a fixed layout stores the spellings of a unit, all of one width. */
  ghost predicate FixedPart(c: Bytes, partAt: nat, offset: nat, width: nat, forms: seq<Bytes>) {
    && partAt + PART_SIZE <= |c| && 0 < |forms| <= 3 && 1 <= width <= 2
    && c[partAt + 6] as int == offset && c[partAt + 7] as int == width && c[partAt + 8] as int == |forms|
    && forall i: nat :: i < |forms| ==> FixedForm(c, partAt + i * 2, width, forms[i])
  }

  ghost predicate FixedForm(c: Bytes, at: nat, width: nat, f: Bytes) {
    && at + 2 <= |c| && |f| == width && 1 <= width <= 2
    && c[at] == f[0] && c[at + 1] == if width == 2 then f[1] else 0
  }

  /** Compare one part: two bytes read as one value, against each stored value. */
  method MatchesPartAt(c: Bytes, h: Bytes, at: nat, partAt: nat, ghost offset: nat, ghost width: nat, ghost forms: seq<Bytes>) returns (ok: bool)
    requires FixedPart(c, partAt, offset, width, forms) && at + offset + width <= |h|
    ensures ok <==> exists i: nat :: i < |forms| && StandsAt(h, at + offset, forms[i])
  {
    var q: nat := at + c[partAt + 6];
    var lo, hi: byte := h[q], 0;
    if c[partAt + 7] == 2 {
      hi := h[q + 1];
    }
    forall i: nat | i < |forms| ensures StandsAt(h, q, forms[i]) <==> lo == c[partAt + i * 2] && hi == c[partAt + i * 2 + 1] {
      assert FixedForm(c, partAt + i * 2, width, forms[i]);
      PairStands(h, q, forms[i], width);
    }
    if lo == c[partAt] && hi == c[partAt + 1] {
      assert StandsAt(h, q, forms[0]);
      return true;
    }
    if c[partAt + 8] >= 2 && lo == c[partAt + 2] && hi == c[partAt + 3] {
      assert StandsAt(h, q, forms[1]);
      return true;
    }
    ok := c[partAt + 8] >= 3 && lo == c[partAt + 4] && hi == c[partAt + 5];
    if ok {
      assert StandsAt(h, q, forms[2]);
    }
  }

  lemma {:induction false} PairStands(h: Bytes, q: nat, f: Bytes, width: nat)
    requires |f| == width && 1 <= width <= 2 && q + width <= |h|
    ensures StandsAt(h, q, f) <==> h[q] == f[0] && (width == 2 ==> h[q + 1] == f[1])
  {
    if width == 1 {
      assert h[q..q + 1] == [h[q]];
      assert f == [f[0]];
    } else {
      assert h[q..q + 2] == [h[q], h[q + 1]];
      assert f == [f[0], f[1]];
    }
  }

  /** The offsets of the units of a literal whose spellings never change width. */
  ghost predicate FixedWidths(all: seq<seq<Bytes>>, offsets: seq<nat>) {
    && |offsets| == |all| + 1 && offsets[0] == 0
    && forall k :: 0 <= k < |all| ==> offsets[k] < offsets[k + 1] && forall f :: f in all[k] ==> |f| == offsets[k + 1] - offsets[k]
  }

  /** Every unit is stored in some part, in the order `main` or in the trailing slots. */
  ghost predicate FixedOf(c: Bytes, t: Fold.Table, runes: seq<int>, all: seq<seq<Bytes>>, offsets: seq<nat>, main: seq<nat>, trailing: seq<nat>)
    requires Fold.Valid(t)
  {
    && Valid(c) && !Variable(c) && |all| == |runes| && FixedWidths(all, offsets) && offsets[|runes|] == c[MAX_LENGTH_AT] as int
    && (forall k: nat :: k < |runes| ==> FormsFor(t, runes[k], all[k]))
    && |main| == c[N_AT] as int && |trailing| == SkippedN(c)
    && Stored(c, all, offsets, main, trailing, |runes|)
  }

  /** The first `n` units are stored, those of `main` in the leading parts, those of `trailing` in the slots at the end. */
  ghost predicate Stored(c: Bytes, all: seq<seq<Bytes>>, offsets: seq<nat>, main: seq<nat>, trailing: seq<nat>, n: nat) {
    && (forall k: nat :: k < n ==> k in main || k in trailing)
    && (forall j: nat :: j < |main| ==> UnitPart(c, j * PART_SIZE, all, offsets, main[j]))
    && (forall j: nat :: j < |trailing| ==> UnitPart(c, SKIPPED_AT + j * PART_SIZE, all, offsets, trailing[j]))
  }

  /** The part stores unit `k`. */
  ghost predicate UnitPart(c: Bytes, partAt: nat, all: seq<seq<Bytes>>, offsets: seq<nat>, k: nat) {
    && k < |all| && k + 1 < |offsets| && offsets[k] < offsets[k + 1]
    && FixedPart(c, partAt, offsets[k], offsets[k + 1] - offsets[k], all[k])
  }

  /** Unit `k` of the literal stands at its offset. */
  ghost predicate UnitHere(h: Bytes, at: nat, all: seq<seq<Bytes>>, offsets: seq<nat>, k: nat) {
    k < |all| && k < |offsets| && exists i: nat :: i < |all[k]| && StandsAt(h, at + offsets[k], all[k][i])
  }

  lemma {:induction false} OffsetsGrow(all: seq<seq<Bytes>>, offsets: seq<nat>, j: nat, k: nat)
    requires FixedWidths(all, offsets) && j <= k < |offsets|
    ensures offsets[j] <= offsets[k]
    decreases k - j
  {
    if j < k {
      OffsetsGrow(all, offsets, j + 1, k);
    }
  }

  /** A unit of the literal stands at its offset exactly when the source's unit there matches. */
  lemma {:induction false} UnitHereMatches(m: Mode, h: Bytes, at: nat, r: int, all: seq<seq<Bytes>>, offsets: seq<nat>, k: nat)
    requires m.Valid() && !m.exact && IsScalar(r) && FixedWidths(all, offsets) && k < |all| && FormsFor(m.fold, r, all[k])
    ensures var q := at + offsets[k];
            UnitHere(h, at, all, offsets, k) <==> q < |h| && Same(m, UnitAt(m, h, q), Rune(r))
    ensures UnitHere(h, at, all, offsets, k) ==>
              at + offsets[k] < |h| && at + offsets[k] + SizeAt(m, h, at + offsets[k]) == at + offsets[k + 1]
  {
    hide FormLen, FormRune, UnitAt, SizeAt, Same, Encode, FormsFor, StandsAt;
    var q := at + offsets[k];
    FormIsUnit(m, h, q, r, all[k]);
    if UnitHere(h, at, all, offsets, k) {
      var i: nat :| i < |all[k]| && StandsAt(h, q, all[k][i]);
      assert all[k][i] in all[k];
    }
    if q < |h| && Same(m, UnitAt(m, h, q), Rune(r)) {
      UnitStands(m, h, q);
      var i: nat :| i < |all[k]| && all[k][i] == h[q..q + SizeAt(m, h, q)];
    }
  }

  /** The units from `k` on all stand at their offsets. */
  ghost predicate RestHere(h: Bytes, at: nat, all: seq<seq<Bytes>>, offsets: seq<nat>, k: nat) {
    forall j: nat :: k <= j < |all| ==> UnitHere(h, at, all, offsets, j)
  }

  /** Every unit at its offset is a match of the literal, and conversely. */
  lemma {:induction false} FixedIsMatch(m: Mode, h: Bytes, at: nat, a: Pattern, runes: seq<int>, all: seq<seq<Bytes>>, offsets: seq<nat>, k: nat)
    requires m.Valid() && !m.exact && RunesOf(a, runes) && |all| == |runes| && FixedWidths(all, offsets) && k <= |runes|
    requires at + offsets[k] <= |h| && forall j: nat :: j < |runes| ==> FormsFor(m.fold, runes[j], all[j])
    ensures MatchEnd(m, h, at + offsets[k], a[k..]) == if RestHere(h, at, all, offsets, k) then Some(at + offsets[|runes|]) else None
    decreases |runes| - k
  {
    hide FormLen, FormRune, UnitAt, SizeAt, Same, Encode, FormsFor, StandsAt, UnitHere;
    if k < |runes| {
      var q := at + offsets[k];
      assert a[k..][0] == Rune(runes[k]) && a[k..][1..] == a[k + 1..];
      UnitHereMatches(m, h, at, runes[k], all, offsets, k);
      if UnitHere(h, at, all, offsets, k) {
        FixedIsMatch(m, h, at, a, runes, all, offsets, k + 1);
        assert RestHere(h, at, all, offsets, k) <==> RestHere(h, at, all, offsets, k + 1);
      }
    } else {
      assert a[k..] == [];
    }
  }

  /** Check all parts, wherever they are stored. */
  method MatchFixed(c: Bytes, h: Bytes, at: nat, ghost m: Mode, ghost a: Pattern, ghost runes: seq<int>, ghost all: seq<seq<Bytes>>, ghost offsets: seq<nat>,
                    ghost main: seq<nat>, ghost trailing: seq<nat>) returns (width: Option<nat>)
    requires m.Valid() && !m.exact && RunesOf(a, runes) && FixedOf(c, m.fold, runes, all, offsets, main, trailing)
    requires at + c[MAX_LENGTH_AT] as int <= |h|
    ensures MatchEnd(m, h, at, a) == if width.Some? then Some(at + width.value) else None
  {
    hide StandsAt, FormsFor, UnitPart, MatchEnd, FixedWidths;
    LiteralMatch(m, h, at, a, runes, all, offsets);
    for part := 0 to c[N_AT]
      invariant forall j: nat :: j < part ==> UnitHere(h, at, all, offsets, main[j])
    {
      assert UnitPart(c, part * PART_SIZE, all, offsets, main[part]);
      var ok := CheckPart(c, h, at, part * PART_SIZE, all, offsets, main[part]);
      if !ok {
        return None;
      }
    }
    for skipped := 0 to SkippedN(c)
      invariant forall j: nat :: j < skipped ==> UnitHere(h, at, all, offsets, trailing[j])
    {
      assert UnitPart(c, SKIPPED_AT + skipped * PART_SIZE, all, offsets, trailing[skipped]);
      var ok := CheckPart(c, h, at, SKIPPED_AT + skipped * PART_SIZE, all, offsets, trailing[skipped]);
      if !ok {
        return None;
      }
    }
    forall k: nat | k < |runes| ensures UnitHere(h, at, all, offsets, k) {
      if k in main {
        var j: nat :| j < |main| && main[j] == k;
      } else {
        var j: nat :| j < |trailing| && trailing[j] == k;
      }
    }
    return Some(c[MAX_LENGTH_AT]);
  }

  lemma {:induction false} LiteralMatch(m: Mode, h: Bytes, at: nat, a: Pattern, runes: seq<int>, all: seq<seq<Bytes>>, offsets: seq<nat>)
    requires m.Valid() && !m.exact && RunesOf(a, runes) && |all| == |runes| && FixedWidths(all, offsets) && at <= |h|
    requires forall j: nat :: j < |runes| ==> FormsFor(m.fold, runes[j], all[j])
    ensures |offsets| == |runes| + 1
    ensures MatchEnd(m, h, at, a) == if RestHere(h, at, all, offsets, 0) then Some(at + offsets[|runes|]) else None
  {
    hide MatchEnd, UnitHere, RestHere;
    FixedIsMatch(m, h, at, a, runes, all, offsets, 0);
    assert a[0..] == a && at + offsets[0] == at;
  }

  method CheckPart(c: Bytes, h: Bytes, at: nat, partAt: nat, ghost all: seq<seq<Bytes>>, ghost offsets: seq<nat>, ghost k: nat) returns (ok: bool)
    requires FixedWidths(all, offsets) && UnitPart(c, partAt, all, offsets, k) && at + offsets[|all|] <= |h|
    ensures k < |all| && (ok <==> UnitHere(h, at, all, offsets, k))
  {
    OffsetsGrow(all, offsets, k + 1, |all|);
    ok := MatchesPartAt(c, h, at, partAt, offsets[k], offsets[k + 1] - offsets[k], all[k]);
  }

  // ----- one confirmation

  /** What a confirmation stores, in either layout. */
  datatype Layout = FixedLayout(offsets: seq<nat>, main: seq<nat>, trailing: seq<nat>) | VariableLayout

  ghost predicate Confirms(c: Bytes, t: Fold.Table, runes: seq<int>, all: seq<seq<Bytes>>, layout: Layout)
    requires Fold.Valid(t)
  {
    match layout
    case FixedLayout(offsets, main, trailing) => FixedOf(c, t, runes, all, offsets, main, trailing)
    case VariableLayout => VariableOf(c, t, runes, all)
  }

  /** The width of the match at `at`, decided by the confirmation alone. */
  method MatchWidthAt(c: Bytes, h: Bytes, at: nat, ghost m: Mode, ghost a: Pattern, ghost runes: seq<int>, ghost all: seq<seq<Bytes>>, ghost layout: Layout)
    returns (width: Option<nat>)
    requires m.Valid() && !m.exact && (Valid(c) ==> RunesOf(a, runes) && Confirms(c, m.fold, runes, all, layout))
    ensures !Valid(c) || at > |h| ==> width == None
    ensures Valid(c) && at <= |h| ==> MatchEnd(m, h, at, a) == if width.Some? then Some(at + width.value) else None
  {
    hide MatchEnd, FormsFor, RunesOf, Stored, VariablePart;
    if !Valid(c) || at > |h| {
      return None;
    }
    if |h| - at < MinLength(c) {
      ConfirmedWithin(c, h, at, m, a, runes, all, layout);
      return None;
    }
    FlagsApart(c);
    if Variable(c) {
      width := MatchVariable(c, h, at, m, a, runes, all);
    } else if |h| - at < c[MAX_LENGTH_AT] {
      assert false;
    } else {
      width := MatchFixed(c, h, at, m, a, runes, all, layout.offsets, layout.main, layout.trailing);
    }
  }

  /** Every match is at least as wide as the minimum, and at most as wide as the maximum. */
  lemma {:induction false} ConfirmedWithin(c: Bytes, h: Bytes, at: nat, m: Mode, a: Pattern, runes: seq<int>, all: seq<seq<Bytes>>, layout: Layout)
    requires m.Valid() && !m.exact && at <= |h| && RunesOf(a, runes) && Valid(c) && Confirms(c, m.fold, runes, all, layout)
    ensures MatchEnd(m, h, at, a).Some? ==> at + MinLength(c) <= MatchEnd(m, h, at, a).value <= at + c[MAX_LENGTH_AT]
  {
    hide MatchEnd, FormsFor, RunesOf, Stored, VariablePart, LeastWidth, MostWidth;
    if MatchEnd(m, h, at, a).Some? {
      if layout.VariableLayout? {
        MatchWithin(m, h, at, a, runes, all);
      } else {
        LiteralMatch(m, h, at, a, runes, all, layout.offsets);
      }
    }
  }
}
