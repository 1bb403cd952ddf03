/** Packing a literal's spellings into a confirmation: which literals fit, and that what
    is stored is the literal. */
module ConfirmMakers {
  import opened Utf8
  import opened Spec
  import opened Displacements
  import opened Confirm
  import Fold

  // ----- the spellings of a pattern

  /** `forms` lists the spellings of a unit: an opaque byte has only itself. */
  ghost predicate UnitForms(m: Mode, u: CodeUnit, forms: seq<Bytes>)
    requires m.Valid()
  {
    && forms != []
    && match u
       case Rune(r) => IsScalar(r) && FormsFor(m.fold, r, forms)
       case Raw(b) => forms == [[b]]
  }

  ghost predicate AllForms(m: Mode, a: Pattern, all: seq<seq<Bytes>>)
    requires m.Valid()
  {
    |all| == |a| && forall k :: 0 <= k < |a| ==> UnitForms(m, a[k], all[k])
  }

  method PatternRawForms(m: Mode, pattern: Bytes) returns (all: seq<seq<Bytes>>)
    requires m.Valid() && !m.exact
    ensures AllForms(m, Units(m, pattern), all)
  {
    hide UnitForms, UnitAt, SizeAt;
    ghost var a := Units(m, pattern);
    var at: nat := 0;
    all := [];
    while at < |pattern|
      invariant at <= |pattern| && |all| <= |a| && Units(m, pattern, at) == a[|all|..]
      invariant forall k :: 0 <= k < |all| ==> UnitForms(m, a[k], all[k])
      decreases |pattern| - at
    {
      var unit := FormsOfUnit(m, UnitAt(m, pattern, at));
      assert a[|all|] == a[|all|..][0] == UnitAt(m, pattern, at);
      assert a[|all| + 1..] == a[|all|..][1..];
      all := all + [unit];
      at := at + SizeAt(m, pattern, at);
    }
  }

  method FormsOfUnit(m: Mode, u: CodeUnit) returns (forms: seq<Bytes>)
    requires m.Valid() && (u.Rune? ==> IsScalar(u.rune))
    ensures UnitForms(m, u, forms)
  {
    hide FormsFor;
    match u {
      case Raw(b) => return [[b]];
      case Rune(r) => forms := RawForms(m.fold, r);
    }
  }

  // ----- the fixed layout

  /** One part: up to three spellings of one width at one offset. */
  method PackPart(at: nat, width: nat, unit: seq<Bytes>) returns (part: Option<Bytes>)
    requires at <= 0xFF && 1 <= width <= 2 && 0 < |unit| <= 3
    ensures part.Some? <==> forall f :: f in unit ==> |f| == width
    ensures part.Some? ==> |part.value| == PART_SIZE && FixedPart(part.value, 0, at, width, unit)
  {
    var packed: Bytes := [0, 0, 0, 0, 0, 0, at, width, |unit|, 0];
    for i := 0 to |unit|
      invariant |packed| == PART_SIZE && packed[6..9] == [at, width, |unit|]
      invariant forall j: nat :: j < i ==> FixedForm(packed, j * 2, width, unit[j])
    {
      if |unit[i]| != width {
        assert unit[i] in unit;
        return None;
      }
      var hi: byte := if width == 2 then unit[i][1] else 0;
      packed := packed[i * 2 := unit[i][0]][i * 2 + 1 := hi];
    }
    assert packed[6] == packed[6..9][0] && packed[7] == packed[6..9][1] && packed[8] == packed[6..9][2];
    forall f | f in unit ensures |f| == width {
      var i :| 0 <= i < |unit| && unit[i] == f;
      assert FixedForm(packed, i * 2, width, unit[i]);
    }
    return Some(packed);
  }

  /** Copy a part into place. */
  method PutPart(packed: array<byte>, partAt: nat, part: Bytes)
    requires |part| == PART_SIZE && partAt + PART_SIZE <= packed.Length
    modifies packed
    ensures packed[..] == old(packed[..partAt]) + part + old(packed[partAt + PART_SIZE..])
  {
    for i := 0 to PART_SIZE
      invariant packed[partAt..partAt + i] == part[..i]
      invariant packed[..partAt] == old(packed[..partAt]) && packed[partAt + i..] == old(packed[partAt + i..])
    {
      packed[partAt + i] := part[i];
    }
  }

  /** A part depends on its own ten bytes only. */
  lemma {:induction false} PartMoves(c: Bytes, partAt: nat, c': Bytes, partAt': nat, offset: nat, width: nat, forms: seq<Bytes>)
    requires FixedPart(c, partAt, offset, width, forms) && partAt' + PART_SIZE <= |c'|
    requires c[partAt..partAt + PART_SIZE] == c'[partAt'..partAt' + PART_SIZE]
    ensures FixedPart(c', partAt', offset, width, forms)
  {
    var from, to := c[partAt..partAt + PART_SIZE], c'[partAt'..partAt' + PART_SIZE];
    assert from[6] == to[6] && from[7] == to[7] && from[8] == to[8];
    forall i: nat | i < |forms| ensures FixedForm(c', partAt' + i * 2, width, forms[i]) {
      assert FixedForm(c, partAt + i * 2, width, forms[i]);
      assert from[i * 2] == to[i * 2] && from[i * 2 + 1] == to[i * 2 + 1];
    }
  }

  /** Writing one part leaves the others. */
  lemma {:induction false} UnitKept(c: Bytes, p: nat, part: Bytes, c': Bytes, partAt: nat, all: seq<seq<Bytes>>, offsets: seq<nat>, next: nat, k: nat)
    requires |part| == PART_SIZE && p + PART_SIZE <= |c| && c' == c[..p] + part + c[p + PART_SIZE..]
    requires partAt + PART_SIZE <= p || p + PART_SIZE <= partAt
    requires UnitPart(c, partAt, all, offsets, k)
    ensures UnitPart(c', partAt, all, offsets + [next], k)
  {
    hide FixedPart;
    var end := partAt + PART_SIZE;
    assert end <= |c| by {
      PartInside(c, partAt, offsets[k], offsets[k + 1] - offsets[k], all[k]);
    }
    assert c[partAt..end] == c'[partAt..end];
    PartMoves(c, partAt, c', partAt, offsets[k], offsets[k + 1] - offsets[k], all[k]);
    assert (offsets + [next])[k] == offsets[k] && (offsets + [next])[k + 1] == offsets[k + 1];
  }

  lemma {:induction false} PartInside(c: Bytes, partAt: nat, offset: nat, width: nat, forms: seq<Bytes>)
    requires FixedPart(c, partAt, offset, width, forms)
    ensures partAt + PART_SIZE <= |c|
  {
  }

  /** Where the part of the next unit goes. */
  function SlotFor(skip: bool, parts: nat, skipped: nat): nat {
    if skip then SKIPPED_AT + skipped * PART_SIZE else parts * PART_SIZE
  }

  /** The unit `n` is stored next. */
  lemma {:induction false} StoreNext(c: Bytes, part: Bytes, c': Bytes, all: seq<seq<Bytes>>, offsets: seq<nat>, main: seq<nat>, trailing: seq<nat>, n: nat, next: nat, skip: bool, skipN: nat)
    requires Stored(c, all, offsets, main, trailing, n) && n < |all| && |offsets| == n + 1 && offsets[n] < next && |c| == PACKED_SIZE
    requires skipN == 0 || skipN == SKIPPED_PARTS
    requires |main| <= MAX_PARTS - skipN && |trailing| <= skipN && if skip then |trailing| < skipN else |main| < MAX_PARTS - skipN
    requires |part| == PART_SIZE && FixedPart(part, 0, offsets[n], next - offsets[n], all[n])
    requires var p := SlotFor(skip, |main|, |trailing|); c' == c[..p] + part + c[p + PART_SIZE..]
    ensures var main', trailing' := if skip then main else main + [n], if skip then trailing + [n] else trailing;
            Stored(c', all, offsets + [next], main', trailing', n + 1)
  {
    hide FixedPart, UnitPart;
    var p := SlotFor(skip, |main|, |trailing|);
    assert c'[p..p + PART_SIZE] == part == part[0..PART_SIZE];
    NewUnit(c', p, part, all, offsets, next, n);
    var main', trailing' := if skip then main else main + [n], if skip then trailing + [n] else trailing;
    forall j: nat | j < |main'| ensures UnitPart(c', j * PART_SIZE, all, offsets + [next], main'[j]) {
      if j < |main| {
        UnitKept(c, p, part, c', j * PART_SIZE, all, offsets, next, main[j]);
      }
    }
    forall j: nat | j < |trailing'| ensures UnitPart(c', SKIPPED_AT + j * PART_SIZE, all, offsets + [next], trailing'[j]) {
      if j < |trailing| {
        UnitKept(c, p, part, c', SKIPPED_AT + j * PART_SIZE, all, offsets, next, trailing[j]);
      }
    }
    assert n in main' || n in trailing' by {
      assert (main + [n])[|main|] == n && (trailing + [n])[|trailing|] == n;
    }
    forall k: nat | k < n + 1 ensures k in main' || k in trailing' {
      assert k in main ==> k in main + [n];
      assert k in trailing ==> k in trailing + [n];
    }
  }

  lemma {:induction false} NewUnit(c: Bytes, p: nat, part: Bytes, all: seq<seq<Bytes>>, offsets: seq<nat>, next: nat, n: nat)
    requires n < |all| && |offsets| == n + 1 && offsets[n] < next && |part| == PART_SIZE && p + PART_SIZE <= |c|
    requires FixedPart(part, 0, offsets[n], next - offsets[n], all[n]) && c[p..p + PART_SIZE] == part[0..PART_SIZE]
    ensures UnitPart(c, p, all, offsets + [next], n)
  {
    hide FixedPart;
    PartMoves(part, 0, c, p, offsets[n], next - offsets[n], all[n]);
    assert (offsets + [next])[n] == offsets[n] && (offsets + [next])[n + 1] == next;
  }

  /** A unit that a part can store: no more than three spellings, each as wide as the
      pattern's own and no wider than two bytes. */
  predicate UnitFits(u: CodeUnit, forms: seq<Bytes>)
    requires u.Rune? ==> IsScalar(u.rune)
  {
    u.Rune? && 0 < |forms| <= 3 && RuneLen(u.rune) <= 2 && forall f :: f in forms ==> |f| == RuneLen(u.rune)
  }

  /** How many units of the pattern start at one of the offsets, or at none of them. */
  function StartsAmong(m: Mode, pattern: Bytes, at: nat, offsets: seq<int>, among: bool): (n: nat)
    requires at <= |pattern|
    decreases |pattern| - at
  {
    if at == |pattern| then 0
    else
      var rest := StartsAmong(m, pattern, at + SizeAt(m, pattern, at), offsets, among);
      if (at in offsets) == among then rest + 1 else rest
  }

  predicate Ranged(pattern: Bytes, anchorAt: int, confirmAt: Option<int>) {
    0 <= anchorAt <= 0xFF && |pattern| <= 0xFF && (confirmAt.Some? ==> 0 <= confirmAt.value <= 0xFF && confirmAt.value != anchorAt)
  }

  function SkippedAt(anchorAt: int, confirmAt: Option<int>): seq<int> {
    if confirmAt.Some? then [anchorAt, confirmAt.value] else []
  }

  /** The literals that the fixed layout admits. */
  ghost predicate Fixable(m: Mode, pattern: Bytes, anchorAt: int, confirmAt: Option<int>, all: seq<seq<Bytes>>)
    requires m.Valid() && AllForms(m, Units(m, pattern), all)
  {
    var a, skips := Units(m, pattern), SkippedAt(anchorAt, confirmAt);
    && Encodable(a) && anchorAt < |pattern| && (forall k :: 0 <= k < |a| ==> UnitFits(a[k], all[k]))
    && StartsAmong(m, pattern, 0, skips, true) == |skips| && StartsAmong(m, pattern, 0, skips, false) <= 20 - |skips|
  }

  function RunesIn(a: Pattern): (runes: seq<int>)
    ensures |runes| == |a| && forall k :: 0 <= k < |a| && a[k].Rune? ==> runes[k] == a[k].rune
  {
    seq(|a|, k requires 0 <= k < |a| => if a[k].Rune? then a[k].rune else 0)
  }

  /** The first `n` units have one width each, and the offsets are their sums. */
  ghost predicate Measured(all: seq<seq<Bytes>>, offsets: seq<nat>, n: nat) {
    && n <= |all| && |offsets| == n + 1 && offsets[0] == 0
    && (forall k :: 0 <= k < n ==> offsets[k] < offsets[k + 1] && forall f :: f in all[k] ==> |f| == offsets[k + 1] - offsets[k])
  }

  lemma {:induction false} MeasureNext(all: seq<seq<Bytes>>, offsets: seq<nat>, n: nat, u: CodeUnit, next: nat)
    requires Measured(all, offsets, n) && n < |all| && (u.Rune? ==> IsScalar(u.rune)) && UnitFits(u, all[n]) && next == offsets[n] + |all[n][0]|
    ensures Measured(all, offsets + [next], n + 1)
  {
    var offsets' := offsets + [next];
    assert all[n][0] in all[n];
    forall k | 0 <= k < n + 1 ensures offsets'[k] < offsets'[k + 1] && forall f :: f in all[k] ==> |f| == offsets'[k + 1] - offsets'[k] {
    }
  }

  /** The packing loop after `n` units. */
  ghost predicate Packing(m: Mode, pattern: Bytes, all: seq<seq<Bytes>>, c: Bytes, at: nat, n: nat, offsets: seq<nat>, main: seq<nat>, trailing: seq<nat>)
    requires m.Valid()
  {
    var a := Units(m, pattern);
    && AllForms(m, a, all) && Encodable(a) && at <= |pattern| && n <= |a| && Units(m, pattern, at) == a[n..]
    && (forall k :: 0 <= k < n ==> UnitFits(a[k], all[k]))
    && Measured(all, offsets, n) && offsets[n] == at
    && |c| == PACKED_SIZE && Stored(c, all, offsets, main, trailing, n)
  }

  lemma {:induction false} PackingStarts(m: Mode, pattern: Bytes, all: seq<seq<Bytes>>, c: Bytes)
    requires m.Valid() && AllForms(m, Units(m, pattern), all) && |c| == PACKED_SIZE
    ensures Packing(m, pattern, all, c, 0, 0, [0], [], [])
  {
    hide UnitForms, UnitFits, UnitPart;
    UnitsEncodable(m, pattern, 0);
    assert Units(m, pattern)[0..] == Units(m, pattern);
  }

  lemma {:induction false} PackingStep(m: Mode, pattern: Bytes, all: seq<seq<Bytes>>, c: Bytes, at: nat, n: nat, offsets: seq<nat>, main: seq<nat>, trailing: seq<nat>,
                     part: Bytes, c': Bytes, skip: bool, skipN: nat)
    requires m.Valid() && Packing(m, pattern, all, c, at, n, offsets, main, trailing) && at < |pattern|
    requires n < |all| && all[n] != [] && UnitFits(UnitAt(m, pattern, at), all[n]) && SizeAt(m, pattern, at) == |all[n][0]|
    requires skipN == 0 || skipN == SKIPPED_PARTS
    requires |main| <= MAX_PARTS - skipN && |trailing| <= skipN && if skip then |trailing| < skipN else |main| < MAX_PARTS - skipN
    requires |part| == PART_SIZE && FixedPart(part, 0, at, SizeAt(m, pattern, at), all[n])
    requires var p := SlotFor(skip, |main|, |trailing|); c' == c[..p] + part + c[p + PART_SIZE..]
    ensures var main', trailing' := if skip then main else main + [n], if skip then trailing + [n] else trailing;
            var next := at + SizeAt(m, pattern, at);
            Packing(m, pattern, all, c', next, n + 1, offsets + [next], main', trailing')
  {
    hide UnitForms, UnitFits, Measured, FixedPart, UnitPart, Stored, Units, UnitAt, SizeAt, Encodable;
    var next := at + SizeAt(m, pattern, at);
    ghost var u := UnitAt(m, pattern, at);
    assert |offsets| == n + 1 by {
      MeasuredLength(all, offsets, n);
    }
    StoreNext(c, part, c', all, offsets, main, trailing, n, next, skip, skipN);
    MeasureNext(all, offsets, n, u, next);
    UnitsNext(m, pattern, at, n);
    assert (offsets + [next])[n + 1] == next;
  }

  lemma {:induction false} MeasuredLength(all: seq<seq<Bytes>>, offsets: seq<nat>, n: nat)
    requires Measured(all, offsets, n)
    ensures |offsets| == n + 1
  {
  }

  lemma {:induction false} UnitsNext(m: Mode, pattern: Bytes, at: nat, n: nat)
    requires at < |pattern| && n <= |Units(m, pattern)| && Units(m, pattern, at) == Units(m, pattern)[n..]
    ensures n < |Units(m, pattern)| && Units(m, pattern)[n] == UnitAt(m, pattern, at)
    ensures Units(m, pattern, at + SizeAt(m, pattern, at)) == Units(m, pattern)[n + 1..]
  {
    hide UnitAt, SizeAt;
    var a := Units(m, pattern);
    assert a[n] == a[n..][0];
    assert a[n + 1..] == a[n..][1..];
  }

  lemma {:induction false} UnitPending(m: Mode, pattern: Bytes, all: seq<seq<Bytes>>, c: Bytes, at: nat, n: nat, offsets: seq<nat>, main: seq<nat>, trailing: seq<nat>)
    requires m.Valid() && Packing(m, pattern, all, c, at, n, offsets, main, trailing) && n < |all|
    ensures at < |pattern| && n < |Units(m, pattern)| && Units(m, pattern)[n] == UnitAt(m, pattern, at) && |c| == PACKED_SIZE
  {
    hide UnitForms, UnitFits, Measured, Stored, UnitAt, SizeAt;
    UnitsNext(m, pattern, at, n);
  }

  lemma {:induction false} CountNext(m: Mode, pattern: Bytes, at: nat, skips: seq<int>)
    requires at < |pattern|
    ensures var next := at + SizeAt(m, pattern, at);
            && StartsAmong(m, pattern, at, skips, true) == StartsAmong(m, pattern, next, skips, true) + (if at in skips then 1 else 0)
            && StartsAmong(m, pattern, at, skips, false) == StartsAmong(m, pattern, next, skips, false) + (if at in skips then 0 else 1)
  {
  }

  /** The part of the unit at `at`, when it fits. */
  method FixedPartAt(m: Mode, pattern: Bytes, at: nat, unit: seq<Bytes>) returns (part: Option<Bytes>)
    requires m.Valid() && !m.exact && at < |pattern| <= 0xFF
    ensures part.Some? <==> UnitFits(UnitAt(m, pattern, at), unit)
    ensures part.Some? ==> unit != [] && |unit[0]| == SizeAt(m, pattern, at)
    ensures part.Some? ==> |part.value| == PART_SIZE && FixedPart(part.value, 0, at, SizeAt(m, pattern, at), unit)
  {
    hide FormLen, FormRune, FixedPart;
    var u, size := UnitAt(m, pattern, at), SizeAt(m, pattern, at);
    if u.Raw? || |unit| == 0 || |unit| > 3 {
      return None;
    }
    EncodeDecode(pattern, at);
    var width := |unit[0]|;
    assert unit[0] in unit;
    if width < 1 || width > 2 || width != size {
      return None;
    }
    part := PackPart(at, width, unit);
  }

  /** Pack a literal in the fixed layout: its anchors, when given, go to the trailing slots. */
  method MakeUnicodePairConfirm(m: Mode, pattern: Bytes, anchorAt: int, confirmAt: Option<int>)
    returns (confirm: Bytes, ghost all: seq<seq<Bytes>>, ghost offsets: seq<nat>, ghost main: seq<nat>, ghost trailing: seq<nat>)
    requires m.Valid() && !m.exact
    ensures !Ranged(pattern, anchorAt, confirmAt) ==> confirm == []
    ensures Ranged(pattern, anchorAt, confirmAt) ==>
              AllForms(m, Units(m, pattern), all) && (Valid(confirm) <==> Fixable(m, pattern, anchorAt, confirmAt, all))
    ensures Valid(confirm) ==>
              var runes := RunesIn(Units(m, pattern));
              && RunesOf(Units(m, pattern), runes) && confirm[ANCHOR_AT] as int == anchorAt
              && FixedOf(confirm, m.fold, runes, all, offsets, main, trailing)
  {
    hide Packing, UnitForms, UnitFits, StartsAmong, UnitAt, SizeAt, FixedPart, FixedOf, Fixable, Units, RunesOf, FormsFor, RunesIn;
    all, offsets, main, trailing := [], [0], [], [];
    if anchorAt < 0 || anchorAt > 0xFF || |pattern| > 0xFF {
      return [], all, offsets, main, trailing;
    }
    if confirmAt.Some? && (confirmAt.value < 0 || confirmAt.value > 0xFF || confirmAt.value == anchorAt) {
      return [], all, offsets, main, trailing;
    }
    var skips := SkippedAt(anchorAt, confirmAt);
    var forms := PatternRawForms(m, pattern);
    all := forms;
    var packed := new byte[PACKED_SIZE](_ => 0);
    var at: nat, parts: nat, skipped: nat := 0, 0, 0;
    PackingStarts(m, pattern, all, packed[..]);
    for n := 0 to |forms|
      invariant Packing(m, pattern, all, packed[..], at, n, offsets, main, trailing)
      invariant at <= |pattern| && parts == |main| <= MAX_PARTS - |skips| && skipped == |trailing| <= |skips|
      invariant parts + StartsAmong(m, pattern, at, skips, false) == StartsAmong(m, pattern, 0, skips, false)
      invariant skipped + StartsAmong(m, pattern, at, skips, true) == StartsAmong(m, pattern, 0, skips, true)
    {
      UnitPending(m, pattern, all, packed[..], at, n, offsets, main, trailing);
      CountNext(m, pattern, at, skips);
      var part := FixedPartAt(m, pattern, at, forms[n]);
      if part.None? {
        Misfit(m, pattern, anchorAt, confirmAt, all, n);
        return [], all, offsets, main, trailing;
      }
      var skip := at in skips;
      if (skip && skipped == |skips|) || (!skip && parts == MAX_PARTS - |skips|) {
        Misfit(m, pattern, anchorAt, confirmAt, all, n);
        return [], all, offsets, main, trailing;
      }
      ghost var before := packed[..];
      PutPart(packed, SlotFor(skip, parts, skipped), part.value);
      PackingStep(m, pattern, all, before, at, n, offsets, main, trailing, part.value, packed[..], skip, |skips|);
      if skip {
        trailing, skipped := trailing + [n], skipped + 1;
      } else {
        main, parts := main + [n], parts + 1;
      }
      at := at + SizeAt(m, pattern, at);
      offsets := offsets + [at];
    }
    ghost var body := packed[..];
    PackingEnds(m, pattern, all, body, at, offsets, main, trailing, skips);
    if at != |pattern| || parts + skipped == 0 || skipped != |skips| {
      Misfit(m, pattern, anchorAt, confirmAt, all, 0);
      return [], all, offsets, main, trailing;
    }
    packed[MAX_LENGTH_AT], packed[ANCHOR_AT], packed[N_AT], packed[VALID_AT] := at, anchorAt, parts, 1 + skipped * 2;
    Packed(m, pattern, anchorAt, confirmAt, all, body, packed[..], offsets, main, trailing);
    return packed[..], all, offsets, main, trailing;
  }

  /** A unit that does not fit, or the wrong number of parts, rules the literal out. */
  lemma {:induction false} Misfit(m: Mode, pattern: Bytes, anchorAt: int, confirmAt: Option<int>, all: seq<seq<Bytes>>, n: nat)
    requires m.Valid() && AllForms(m, Units(m, pattern), all)
    requires var a, skips := Units(m, pattern), SkippedAt(anchorAt, confirmAt);
             || (n < |a| && (a[n].Rune? ==> IsScalar(a[n].rune)) && !UnitFits(a[n], all[n]))
             || StartsAmong(m, pattern, 0, skips, true) != |skips| || StartsAmong(m, pattern, 0, skips, false) > MAX_PARTS - |skips|
             || anchorAt >= |pattern|
    ensures !Fixable(m, pattern, anchorAt, confirmAt, all)
  {
  }

  /** At the end of the loop the whole pattern is stored. */
  lemma {:induction false} PackingEnds(m: Mode, pattern: Bytes, all: seq<seq<Bytes>>, c: Bytes, at: nat, offsets: seq<nat>, main: seq<nat>, trailing: seq<nat>, skips: seq<int>)
    requires m.Valid() && Packing(m, pattern, all, c, at, |all|, offsets, main, trailing)
    ensures at == |pattern| && |c| == PACKED_SIZE
    ensures StartsAmong(m, pattern, at, skips, true) == StartsAmong(m, pattern, at, skips, false) == 0
    ensures |main| + |trailing| == 0 ==> pattern == []
  {
    hide UnitForms, UnitFits, Measured, UnitPart, UnitAt, SizeAt;
    assert all != [] ==> 0 in main || 0 in trailing;
  }

  lemma {:induction false} Packed(m: Mode, pattern: Bytes, anchorAt: int, confirmAt: Option<int>, all: seq<seq<Bytes>>, body: Bytes, c: Bytes,
                offsets: seq<nat>, main: seq<nat>, trailing: seq<nat>)
    requires m.Valid() && Packing(m, pattern, all, body, |pattern|, |all|, offsets, main, trailing) && Ranged(pattern, anchorAt, confirmAt)
    requires |c| == |body| == PACKED_SIZE && c[..MAX_LENGTH_AT] == body[..MAX_LENGTH_AT]
    requires var skips := SkippedAt(anchorAt, confirmAt);
             && |main| <= MAX_PARTS - |skips| && |trailing| == |skips| && |main| + |trailing| > 0
             && StartsAmong(m, pattern, 0, skips, true) == |trailing| && StartsAmong(m, pattern, 0, skips, false) == |main|
    requires c[MAX_LENGTH_AT] as int == |pattern| && c[ANCHOR_AT] as int == anchorAt && c[N_AT] as int == |main| && c[VALID_AT] as int == 1 + |trailing| * 2
    ensures AllForms(m, Units(m, pattern), all) && (Valid(c) <==> Fixable(m, pattern, anchorAt, confirmAt, all))
    ensures Valid(c) ==>
              var runes := RunesIn(Units(m, pattern));
              && RunesOf(Units(m, pattern), runes) && FixedOf(c, m.fold, runes, all, offsets, main, trailing)
  {
    hide UnitPart, UnitAt, SizeAt, FormsFor, StartsAmong, Units;
    BodyKept(body, c, all, offsets, main, trailing, |all|);
  }

  /** Writing the header leaves the parts. */
  lemma {:induction false} BodyKept(c: Bytes, c': Bytes, all: seq<seq<Bytes>>, offsets: seq<nat>, main: seq<nat>, trailing: seq<nat>, n: nat)
    requires |c| == |c'| == PACKED_SIZE && c[..MAX_LENGTH_AT] == c'[..MAX_LENGTH_AT] && Stored(c, all, offsets, main, trailing, n)
    requires |main| <= MAX_PARTS && |trailing| <= SKIPPED_PARTS
    ensures Stored(c', all, offsets, main, trailing, n)
  {
    hide UnitPart;
    forall j: nat | j < |main| ensures UnitPart(c', j * PART_SIZE, all, offsets, main[j]) {
      PartKept(c, c', j * PART_SIZE, all, offsets, main[j]);
    }
    forall j: nat | j < |trailing| ensures UnitPart(c', SKIPPED_AT + j * PART_SIZE, all, offsets, trailing[j]) {
      PartKept(c, c', SKIPPED_AT + j * PART_SIZE, all, offsets, trailing[j]);
    }
  }

  lemma {:induction false} PartKept(c: Bytes, c': Bytes, partAt: nat, all: seq<seq<Bytes>>, offsets: seq<nat>, k: nat)
    requires |c| == |c'| == PACKED_SIZE && c[..MAX_LENGTH_AT] == c'[..MAX_LENGTH_AT] && partAt + PART_SIZE <= MAX_LENGTH_AT
    requires UnitPart(c, partAt, all, offsets, k)
    ensures UnitPart(c', partAt, all, offsets, k)
  {
    hide FixedPart;
    assert c[partAt..partAt + PART_SIZE] == c[..MAX_LENGTH_AT][partAt..partAt + PART_SIZE];
    assert c'[partAt..partAt + PART_SIZE] == c'[..MAX_LENGTH_AT][partAt..partAt + PART_SIZE];
    PartMoves(c, partAt, c', partAt, offsets[k], offsets[k + 1] - offsets[k], all[k]);
  }

  // ----- the variable layout

  predicate VariableFits(u: CodeUnit, forms: seq<Bytes>) {
    u.Rune? && 0 < |forms| <= 3 && forall f :: f in forms ==> 1 <= |f| <= 3
  }

  /** The literals that the variable layout admits: those whose width really varies. */
  ghost predicate Variably(m: Mode, pattern: Bytes, anchorAt: int, all: seq<seq<Bytes>>)
    requires m.Valid() && AllForms(m, Units(m, pattern), all)
  {
    var a := Units(m, pattern);
    && (forall k :: 0 <= k < |a| ==> VariableFits(a[k], all[k])) && 0 < |a| <= 20
    && LeastWidth(all) != MostWidth(all) && anchorAt < MostWidth(all) <= 0xFF
  }

  /** The spellings of a part up to the `i`-th are in place. */
  ghost predicate PackedTo(packed: Bytes, unit: seq<Bytes>, i: nat) {
    && |unit| <= 3 && i <= |unit| && |packed| == PART_SIZE && packed[9] == |unit|
    && forall j: nat :: j < i ==> VariableForm(packed, j * 3, unit[j])
  }

  lemma {:induction false} PackNext(before: Bytes, packed: Bytes, unit: seq<Bytes>, i: nat)
    requires PackedTo(before, unit, i) && i < |unit| && 1 <= |unit[i]| <= 3
    requires packed == before[..i * 3] + unit[i] + before[i * 3 + |unit[i]|..]
    ensures PackedTo(packed, unit, i + 1)
  {
    forall j: nat | j < i + 1 ensures VariableForm(packed, j * 3, unit[j]) {
      if j < i {
        assert VariableForm(before, j * 3, unit[j]);
        assert packed[j * 3..j * 3 + |unit[j]|] == before[j * 3..j * 3 + |unit[j]|];
      }
    }
  }

  lemma {:induction false} WidthsNext(unit: seq<Bytes>, i: nat)
    requires i < |unit|
    ensures Shortest(unit[..i + 1]) == if |unit[i]| < Shortest(unit[..i]) then |unit[i]| else Shortest(unit[..i])
    ensures Longest(unit[..i + 1]) == if |unit[i]| > Longest(unit[..i]) then |unit[i]| else Longest(unit[..i])
  {
    assert unit[..i + 1][..i] == unit[..i];
  }

  /** One part: up to three spellings of up to three bytes each. */
  method PackForms(unit: seq<Bytes>) returns (part: Option<Bytes>, least: nat, most: nat)
    requires 0 < |unit| <= 3
    ensures part.Some? <==> forall f :: f in unit ==> 1 <= |f| <= 3
    ensures part.Some? ==> |part.value| == PART_SIZE && VariablePart(part.value, 0, unit)
    ensures part.Some? ==> least == Shortest(unit) && most == Longest(unit)
  {
    hide Shortest, Longest;
    var packed: Bytes := [0, 0, 0, 0, 0, 0, 0, 0, 0, |unit|];
    least, most := 5, 0;
    NoWidths();
    for i := 0 to |unit|
      invariant PackedTo(packed, unit, i)
      invariant least == Shortest(unit[..i]) && most == Longest(unit[..i])
    {
      if |unit[i]| == 0 || |unit[i]| > 3 {
        assert unit[i] in unit;
        return None, least, most;
      }
      ghost var before := packed;
      packed := packed[..i * 3] + unit[i] + packed[i * 3 + |unit[i]|..];
      PackNext(before, packed, unit, i);
      WidthsNext(unit, i);
      least := if |unit[i]| < least then |unit[i]| else least;
      most := if |unit[i]| > most then |unit[i]| else most;
    }
    assert unit[..|unit|] == unit;
    forall f | f in unit ensures 1 <= |f| <= 3 {
      var i :| 0 <= i < |unit| && unit[i] == f;
      assert VariableForm(packed, i * 3, unit[i]);
    }
    return Some(packed), least, most;
  }

  lemma {:induction false} NoWidths()
    ensures Shortest([]) == 5 && Longest([]) == 0
  {
  }

  lemma {:induction false} SumsNext(all: seq<seq<Bytes>>, k: nat)
    requires k < |all|
    ensures LeastWidth(all[..k + 1]) == LeastWidth(all[..k]) + Shortest(all[k])
    ensures MostWidth(all[..k + 1]) == MostWidth(all[..k]) + Longest(all[k])
    decreases k
  {
    hide Shortest, Longest;
    if k > 0 {
      SumsNext(all[1..], k - 1);
      assert all[..k + 1][1..] == all[1..][..k] && all[..k][1..] == all[1..][..k - 1];
    }
  }

  /** A part depends on its own ten bytes only. */
  lemma {:induction false} FormsMove(c: Bytes, partAt: nat, c': Bytes, partAt': nat, forms: seq<Bytes>)
    requires VariablePart(c, partAt, forms) && partAt' + PART_SIZE <= |c'|
    requires c[partAt..partAt + PART_SIZE] == c'[partAt'..partAt' + PART_SIZE]
    ensures VariablePart(c', partAt', forms)
  {
    var from, to := c[partAt..partAt + PART_SIZE], c'[partAt'..partAt' + PART_SIZE];
    assert from[9] == to[9];
    forall i: nat | i < |forms| ensures VariableForm(c', partAt' + i * 3, forms[i]) {
      assert VariableForm(c, partAt + i * 3, forms[i]);
      SliceOfSlice(c, partAt, i * 3, |forms[i]|);
      SliceOfSlice(c', partAt', i * 3, |forms[i]|);
    }
  }

  lemma {:induction false} SliceOfSlice(c: Bytes, at: nat, k: nat, n: nat)
    requires at + PART_SIZE <= |c| && k + n <= PART_SIZE
    ensures c[at..at + PART_SIZE][k..k + n] == c[at + k..at + k + n]
  {
    var t := c[at..at + PART_SIZE];
    var u, v := t[k..k + n], c[at + k..at + k + n];
    forall i | 0 <= i < n ensures u[i] == v[i] {
      assert t[k + i] == c[at + (k + i)];
    }
  }

  ghost predicate PackedForms(c: Bytes, all: seq<seq<Bytes>>, n: nat) {
    |c| == VARIABLE_SIZE && n <= |all| && forall k: nat :: k < n ==> VariablePart(c, k * PART_SIZE, all[k])
  }

  lemma {:induction false} FormsNext(c: Bytes, part: Bytes, c': Bytes, all: seq<seq<Bytes>>, n: nat)
    requires PackedForms(c, all, n) && n < |all| && n < MAX_PARTS && |part| == PART_SIZE && VariablePart(part, 0, all[n])
    requires c' == c[..n * PART_SIZE] + part + c[n * PART_SIZE + PART_SIZE..]
    ensures PackedForms(c', all, n + 1)
  {
    hide VariablePart;
    forall k: nat | k < n + 1 ensures VariablePart(c', k * PART_SIZE, all[k]) {
      if k < n {
        assert c[k * PART_SIZE..k * PART_SIZE + PART_SIZE] == c'[k * PART_SIZE..k * PART_SIZE + PART_SIZE];
        FormsMove(c, k * PART_SIZE, c', k * PART_SIZE, all[k]);
      } else {
        assert c'[n * PART_SIZE..n * PART_SIZE + PART_SIZE] == part == part[0..PART_SIZE];
        FormsMove(part, 0, c', n * PART_SIZE, all[n]);
      }
    }
  }

  lemma {:induction false} FormsStay(c: Bytes, c': Bytes, all: seq<seq<Bytes>>, n: nat)
    requires PackedForms(c, all, n) && n <= MAX_PARTS && |c'| == VARIABLE_SIZE && c[..MAX_LENGTH_AT] == c'[..MAX_LENGTH_AT]
    ensures PackedForms(c', all, n)
  {
    hide VariablePart;
    forall k: nat | k < n ensures VariablePart(c', k * PART_SIZE, all[k]) {
      var at := k * PART_SIZE;
      assert c[at..at + PART_SIZE] == c[..MAX_LENGTH_AT][at..at + PART_SIZE];
      assert c'[at..at + PART_SIZE] == c'[..MAX_LENGTH_AT][at..at + PART_SIZE];
      FormsMove(c, at, c', at, all[k]);
    }
  }

  /** The variable packing loop after `n` units. */
  ghost predicate PackingForms(m: Mode, pattern: Bytes, all: seq<seq<Bytes>>, c: Bytes, n: nat)
    requires m.Valid()
  {
    var a := Units(m, pattern);
    AllForms(m, a, all) && PackedForms(c, all, n) && forall k :: 0 <= k < n ==> VariableFits(a[k], all[k])
  }

  /** Pack a literal in the variable layout. */
  method MakeUnicodePairVariableConfirm(m: Mode, pattern: Bytes, anchorAt: int) returns (confirm: Bytes, ghost all: seq<seq<Bytes>>)
    requires m.Valid() && !m.exact
    ensures !(0 <= anchorAt <= 0xFF) ==> confirm == []
    ensures 0 <= anchorAt <= 0xFF ==> AllForms(m, Units(m, pattern), all) && (Valid(confirm) <==> Variably(m, pattern, anchorAt, all))
    ensures Valid(confirm) ==>
              var runes := RunesIn(Units(m, pattern));
              && RunesOf(Units(m, pattern), runes) && confirm[ANCHOR_AT] as int == anchorAt
              && VariableOf(confirm, m.fold, runes, all)
  {
    hide PackingForms, UnitForms, Units, LeastWidth, MostWidth, Variably, RunesOf, VariableOf;
    all := [];
    if anchorAt < 0 || anchorAt > 0xFF {
      return [], all;
    }
    var forms := PatternRawForms(m, pattern);
    all := forms;
    var lettered := AllRunes(m, pattern);
    if !lettered || |forms| == 0 || |forms| > MAX_PARTS {
      assert lettered || exists k :: 0 <= k < |all| && !VariableFits(Units(m, pattern)[k], all[k]);
      Unvarying(m, pattern, anchorAt, all);
      return [], all;
    }
    var packed := new byte[VARIABLE_SIZE](_ => 0);
    var fits, minLength, maxLength := PackUnits(m, pattern, forms, packed);
    if !fits || minLength == maxLength || maxLength > 0xFF {
      Unvarying(m, pattern, anchorAt, all);
      return [], all;
    }
    ghost var body := packed[..];
    LeastIsLess(m, pattern, all, body);
    packed[MAX_LENGTH_AT], packed[ANCHOR_AT], packed[N_AT], packed[VALID_AT] := maxLength, anchorAt, |forms|, 1 + VARIABLE_FLAG;
    packed[MIN_AT] := minLength;
    assert packed[..MAX_LENGTH_AT] == body[..MAX_LENGTH_AT];
    PackedVariable(m, pattern, anchorAt, all, body, packed[..]);
    return packed[..], all;
  }

  /** Pack the units in turn, adding up their widths. */
  method PackUnits(m: Mode, pattern: Bytes, forms: seq<seq<Bytes>>, packed: array<byte>) returns (fits: bool, minLength: nat, maxLength: nat)
    requires m.Valid() && AllForms(m, Units(m, pattern), forms) && |forms| <= MAX_PARTS && packed.Length == VARIABLE_SIZE
    requires forall k :: 0 <= k < |forms| ==> Units(m, pattern)[k].Rune?
    modifies packed
    ensures fits <==> forall k :: 0 <= k < |forms| ==> VariableFits(Units(m, pattern)[k], forms[k])
    ensures fits ==> PackingForms(m, pattern, forms, packed[..], |forms|) && minLength == LeastWidth(forms) && maxLength == MostWidth(forms)
  {
    hide PackingForms, UnitForms, Units, LeastWidth, MostWidth, Shortest, Longest, VariablePart;
    minLength, maxLength := 0, 0;
    FormsStart(m, pattern, forms, packed[..]);
    for n := 0 to |forms|
      invariant PackingForms(m, pattern, forms, packed[..], n)
      invariant minLength == LeastWidth(forms[..n]) && maxLength == MostWidth(forms[..n])
    {
      if |forms[n]| == 0 || |forms[n]| > 3 {
        return false, 0, 0;
      }
      var part, least, most := PackForms(forms[n]);
      if part.None? {
        return false, 0, 0;
      }
      ghost var before := packed[..];
      PutPart(packed, n * PART_SIZE, part.value);
      PackingFormsNext(m, pattern, forms, before, packed[..], part.value, n);
      SumsNext(forms, n);
      minLength, maxLength := minLength + least, maxLength + most;
    }
    assert forms[..|forms|] == forms;
    FormsFit(m, pattern, forms, packed[..]);
    fits := true;
  }

  lemma {:induction false} FormsFit(m: Mode, pattern: Bytes, all: seq<seq<Bytes>>, c: Bytes)
    requires m.Valid() && PackingForms(m, pattern, all, c, |all|)
    ensures |all| == |Units(m, pattern)| && forall k :: 0 <= k < |all| ==> VariableFits(Units(m, pattern)[k], all[k])
  {
  }

  method AllRunes(m: Mode, pattern: Bytes) returns (lettered: bool)
    ensures lettered <==> forall k :: 0 <= k < |Units(m, pattern)| ==> Units(m, pattern)[k].Rune?
  {
    hide UnitAt, SizeAt;
    ghost var a := Units(m, pattern);
    var at: nat := 0;
    ghost var n: nat := 0;
    while at < |pattern|
      invariant at <= |pattern| && n <= |a| && Units(m, pattern, at) == a[n..]
      invariant forall k :: 0 <= k < n ==> a[k].Rune?
      decreases |pattern| - at
    {
      UnitsNext(m, pattern, at, n);
      if UnitAt(m, pattern, at).Raw? {
        return false;
      }
      at, n := at + SizeAt(m, pattern, at), n + 1;
    }
    return true;
  }

  lemma {:induction false} FormsStart(m: Mode, pattern: Bytes, all: seq<seq<Bytes>>, c: Bytes)
    requires m.Valid() && AllForms(m, Units(m, pattern), all) && |c| == VARIABLE_SIZE
    ensures PackingForms(m, pattern, all, c, 0) && LeastWidth(all[..0]) == MostWidth(all[..0]) == 0
  {
  }

  lemma {:induction false} PackingFormsNext(m: Mode, pattern: Bytes, all: seq<seq<Bytes>>, c: Bytes, c': Bytes, part: Bytes, n: nat)
    requires m.Valid() && PackingForms(m, pattern, all, c, n) && n < |all| && n < MAX_PARTS
    requires Units(m, pattern)[n].Rune? && 0 < |all[n]| <= 3 && (forall f :: f in all[n] ==> 1 <= |f| <= 3)
    requires |part| == PART_SIZE && VariablePart(part, 0, all[n]) && c' == c[..n * PART_SIZE] + part + c[n * PART_SIZE + PART_SIZE..]
    ensures PackingForms(m, pattern, all, c', n + 1)
  {
    hide PackedForms, VariablePart, UnitForms, Units;
    FormsNext(c, part, c', all, n);
  }

  lemma {:induction false} Unvarying(m: Mode, pattern: Bytes, anchorAt: int, all: seq<seq<Bytes>>)
    requires m.Valid() && AllForms(m, Units(m, pattern), all)
    requires || all == [] || |all| > MAX_PARTS || LeastWidth(all) == MostWidth(all) || MostWidth(all) > 0xFF
             || exists k :: 0 <= k < |all| && !VariableFits(Units(m, pattern)[k], all[k])
    ensures !Variably(m, pattern, anchorAt, all)
  {
    hide Units, UnitForms, LeastWidth, MostWidth;
  }

  lemma {:induction false} WidthsOrdered(all: seq<seq<Bytes>>)
    requires forall k :: 0 <= k < |all| ==> all[k] != [] && forall f :: f in all[k] ==> 1 <= |f|
    ensures |all| <= LeastWidth(all) <= MostWidth(all)
  {
    if all != [] {
      WidthsOrdered(all[1..]);
      assert all[0][0] in all[0];
      SomeIsShortest(all[0]);
    }
  }

  lemma {:induction false} SomeIsShortest(forms: seq<Bytes>)
    requires forms != [] && forall f :: f in forms ==> 1 <= |f|
    ensures Shortest(forms) >= 1
  {
    if |forms| > 1 {
      SomeIsShortest(forms[..|forms| - 1]);
    }
  }

  lemma {:induction false} LeastIsLess(m: Mode, pattern: Bytes, all: seq<seq<Bytes>>, c: Bytes)
    requires m.Valid() && PackingForms(m, pattern, all, c, |all|)
    ensures |all| <= LeastWidth(all) <= MostWidth(all)
  {
    hide LeastWidth, MostWidth, PackedForms, UnitForms, Units;
    WidthsOrdered(all);
  }

  lemma {:induction false} PackedVariable(m: Mode, pattern: Bytes, anchorAt: int, all: seq<seq<Bytes>>, body: Bytes, c: Bytes)
    requires m.Valid() && PackingForms(m, pattern, all, body, |all|) && 0 <= anchorAt <= 0xFF && 0 < |all| <= MAX_PARTS
    requires |c| == VARIABLE_SIZE && c[..MAX_LENGTH_AT] == body[..MAX_LENGTH_AT]
    requires 0 < LeastWidth(all) < MostWidth(all) <= 0xFF
    requires c[MAX_LENGTH_AT] as int == MostWidth(all) && c[ANCHOR_AT] as int == anchorAt && c[N_AT] as int == |all|
    requires c[VALID_AT] as int == 1 + VARIABLE_FLAG && c[MIN_AT] as int == LeastWidth(all)
    ensures AllForms(m, Units(m, pattern), all) && (Valid(c) <==> Variably(m, pattern, anchorAt, all))
    ensures Valid(c) ==>
              var runes := RunesIn(Units(m, pattern));
              RunesOf(Units(m, pattern), runes) && VariableOf(c, m.fold, runes, all)
  {
    hide Units, LeastWidth, MostWidth, FormsFor, VariablePart;
    FormsStay(body, c, all, |all|);
  }
}
