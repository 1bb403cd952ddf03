/** The tagged multi-anchor filter. Each pattern contributes three interior two-byte
    units, together with every distance at which a folded spelling can put them; small
    tables nominate positions, and exact pair checks thin out the tags. */
module MultiAnchors {
  import opened Utf8
  import opened Spec
  import opened Displacements
  import Fold

  const MAX_UNITS := 16
  const CONFIRM_GROUPS := 3
  const MAX_GROUPS := 8

  /** Three units of one pattern: where the first can stand, counted from the start of a
      match, and where the other two can stand, counted from the first. */
  datatype Anchor = Anchor(primary: seq<Bytes>, confirm: seq<Bytes>, guard: seq<Bytes>,
                           starts: seq<nat>, confirmOffset: seq<nat>, guardOffset: seq<nat>)

  ghost predicate SoundAt(t: Fold.Table, runes: seq<int>, a: Anchor, u: nat, v: nat, w: nat)
    requires Fold.Valid(t)
  {
    && u < v < w < |runes|
    && PairsOf(t, runes[u], a.primary) && PairsOf(t, runes[v], a.confirm) && PairsOf(t, runes[w], a.guard)
    && WidthsOf(t, runes, 0, u, a.starts) && WidthsOf(t, runes, u, v, a.confirmOffset) && WidthsOf(t, runes, u, w, a.guardOffset)
  }

  ghost predicate Sound(t: Fold.Table, runes: seq<int>, a: Anchor)
    requires Fold.Valid(t)
  {
    exists u: nat, v: nat, w: nat :: SoundAt(t, runes, a, u, v, w)
  }

  /** The exact pair checks of one anchor at the position of its first unit. */
  predicate Exact(a: Anchor, h: Bytes, at: nat) {
    && PairHere(a.primary, h, at)
    && (exists c :: c in a.confirmOffset && PairHere(a.confirm, h, at + c))
    && (exists g :: g in a.guardOffset && PairHere(a.guard, h, at + g))
  }

  /** Every match shows its anchor at one of the compiled displacements. */
  lemma {:induction false} AnchorShows(m: Mode, h: Bytes, q: nat, pattern: Pattern, runes: seq<int>, a: Anchor) returns (d: nat)
    requires m.Valid() && !m.exact && q <= |h| && MatchEnd(m, h, q, pattern).Some? && RunesOf(pattern, runes)
    requires Sound(m.fold, runes, a)
    ensures d in a.starts && Exact(a, h, q + d)
    ensures exists c :: c in a.confirmOffset && PairHere(a.confirm, h, q + d + c)
  {
    hide MatchEnd, PairHere, PairsOf, Displaces, RunesOf;
    RunesLength(pattern, runes);
    var u: nat, v: nat, w: nat :| SoundAt(m.fold, runes, a, u, v, w);
    MatchDisplaces(m, h, q, pattern, runes, 0, u);
    MatchDisplaces(m, h, q, pattern, runes, u, v);
    MatchDisplaces(m, h, q, pattern, runes, u, w);
    MatchPair(m, h, q, pattern, runes, u, a.primary);
    MatchPair(m, h, q, pattern, runes, v, a.confirm);
    MatchPair(m, h, q, pattern, runes, w, a.guard);
    MatchNothing(m, h, q, pattern);
    var eu, ev, ew := MatchEnd(m, h, q, pattern[..u]).value, MatchEnd(m, h, q, pattern[..v]).value, MatchEnd(m, h, q, pattern[..w]).value;
    d := eu - q;
    var c: nat, g: nat := ev - eu, ew - eu;
    assert c in a.confirmOffset && PairHere(a.confirm, h, q + d + c);
    assert g in a.guardOffset && PairHere(a.guard, h, q + d + g);
  }

  lemma {:induction false} RunesLength(pattern: Pattern, runes: seq<int>)
    requires RunesOf(pattern, runes)
    ensures |pattern| == |runes|
  {
  }

  // ----- choosing an anchor

  /** A unit of the pattern with two-byte spellings only, and the displacements of it. */
  datatype Unit = Unit(index: nat, pairs: seq<Bytes>, starts: Option<seq<nat>>)

  ghost predicate UnitSound(t: Fold.Table, runes: seq<int>, x: Unit)
    requires Fold.Valid(t)
  {
    && x.index < |runes| && PairsOf(t, runes[x.index], x.pairs)
    && (x.starts.Some? ==> WidthsOf(t, runes, 0, x.index, x.starts.value))
  }

  /** All two-byte units of a pattern, unless there are too many. Displacements that do
      not fit are dropped; the units behind may still confirm earlier ones. */
  method GatherUnits(t: Fold.Table, runes: seq<int>) returns (units: Option<seq<Unit>>)
    requires Fold.Valid(t) && Scalars(runes)
    ensures units.Some? ==>
              && (forall k :: 0 <= k < |units.value| ==> UnitSound(t, runes, units.value[k]))
              && (forall k, l :: 0 <= k < l < |units.value| ==> units.value[k].index < units.value[l].index)
  {
    hide WidthsOf, PairsOf;
    var out: seq<Unit> := [];
    var prefix: Option<seq<nat>> := Some([0]);
    NoWidth(t, runes, 0);
    for j := 0 to |runes|
      invariant prefix.Some? ==> WidthsOf(t, runes, 0, j, prefix.value)
      invariant forall k :: 0 <= k < |out| ==> out[k].index < j && UnitSound(t, runes, out[k])
      invariant forall k, l :: 0 <= k < l < |out| ==> out[k].index < out[l].index
    {
      var pairs := PairSetFor(t, runes[j]);
      if pairs.Some? {
        if |out| == MAX_UNITS {
          return None;
        }
        out := out + [Unit(j, pairs.value, prefix)];
      }
      if prefix.Some? {
        var next := AddRuneWidths(t, runes[j], prefix.value);
        if next.Some? {
          WidthsGrow(t, runes, 0, j, prefix.value, next.value);
        }
        prefix := next;
      }
    }
    return Some(out);
  }

  /** The displacements from one unit to each later one. */
  method RelativeWidths(t: Fold.Table, runes: seq<int>, units: seq<Unit>, primary: nat) returns (out: seq<Option<seq<nat>>>)
    requires Fold.Valid(t) && Scalars(runes) && primary < |units|
    requires forall k :: 0 <= k < |units| ==> units[k].index < |runes|
    requires forall k, l :: 0 <= k < l < |units| ==> units[k].index < units[l].index
    ensures |out| == |units|
    ensures forall k :: primary < k < |units| && out[k].Some? ==> WidthsOf(t, runes, units[primary].index, units[k].index, out[k].value)
  {
    hide WidthsOf;
    out := seq(|units|, _ => None);
    var u := units[primary].index;
    var widths: Option<seq<nat>>, at := Some([0]), u;
    NoWidth(t, runes, u);
    for target := primary + 1 to |units|
      invariant |out| == |units|
      invariant u <= at <= |runes| && (target < |units| ==> at <= units[target].index)
      invariant widths.Some? ==> at == units[target - 1].index && WidthsOf(t, runes, u, at, widths.value)
      invariant forall k :: primary < k < target && out[k].Some? ==> WidthsOf(t, runes, u, units[k].index, out[k].value)
    {
      var end := units[target].index;
      while at < end && widths.Some?
        invariant u <= at <= end && (widths.Some? ==> WidthsOf(t, runes, u, at, widths.value))
      {
        var next := AddRuneWidths(t, runes[at], widths.value);
        if next.Some? {
          WidthsGrow(t, runes, u, at, widths.value, next.value);
        }
        widths, at := next, at + 1;
      }
      out := out[target := widths];
    }
  }

  /** Whether a set of confirmation offsets still finds room among the shared groups. */
  method CanAddConfirmationOffsets(groups: seq<nat>, offsets: seq<nat>) returns (fits: bool)
    requires |groups| <= CONFIRM_GROUPS
    ensures fits ==> exists pending: seq<nat> :: |groups| + |pending| <= CONFIRM_GROUPS && forall c :: c in offsets ==> c in groups || c in pending
  {
    var pending: seq<nat> := [];
    for k := 0 to |offsets|
      invariant |groups| + |pending| <= CONFIRM_GROUPS
      invariant forall j :: 0 <= j < k ==> offsets[j] in groups || offsets[j] in pending
    {
      if offsets[k] !in groups && offsets[k] !in pending {
        if |groups| + |pending| == CONFIRM_GROUPS {
          return false;
        }
        pending := pending + [offsets[k]];
      }
    }
    return true;
  }

  /** A sound anchor of the pattern. Which one is a matter of cost: `better` ranks them. */
  method SelectCandidate(t: Fold.Table, runes: seq<int>, units: seq<Unit>, groups: seq<nat>, better: (Anchor, Anchor) -> bool)
    returns (best: Option<Anchor>)
    requires Fold.Valid(t) && Scalars(runes) && |groups| <= CONFIRM_GROUPS
    requires forall k :: 0 <= k < |units| ==> UnitSound(t, runes, units[k])
    requires forall k, l :: 0 <= k < l < |units| ==> units[k].index < units[l].index
    ensures best.Some? ==> Sound(t, runes, best.value)
  {
    hide WidthsOf, PairsOf;
    best := None;
    for primary := 0 to |units|
      invariant best.Some? ==> Sound(t, runes, best.value)
    {
      if units[primary].index == 0 || units[primary].starts.None? {
        continue;
      }
      var relative := RelativeWidths(t, runes, units, primary);
      for confirm := primary + 1 to |units|
        invariant best.Some? ==> Sound(t, runes, best.value)
      {
        if relative[confirm].None? || |relative[confirm].value| > CONFIRM_GROUPS {
          continue;
        }
        for guard := confirm + 1 to |units|
          invariant best.Some? ==> Sound(t, runes, best.value)
        {
          var fits := CanAddConfirmationOffsets(groups, relative[confirm].value);
          if relative[guard].None? || !fits {
            continue;
          }
          var candidate := Anchor(units[primary].pairs, units[confirm].pairs, units[guard].pairs,
                                  units[primary].starts.value, relative[confirm].value, relative[guard].value);
          assert SoundAt(t, runes, candidate, units[primary].index, units[confirm].index, units[guard].index);
          if best.None? || better(candidate, best.value) {
            best := Some(candidate);
          }
        }
      }
    }
  }

  // ----- the tagged tables

  /** A table says, for the low six bits of a byte, which patterns may own it. */
  type Table = t: seq<set<nat>> | |t| == 0x40 witness seq(0x40, _ => {})

  function Slot(b: byte): (k: nat)
    ensures k < 0x40
  {
    b % 0x40
  }

  datatype Filter = Filter(first: Table, second: Table, confirmFirst: seq<Table>, confirmSecond: seq<Table>,
                           confirmOffset: seq<nat>, maxOffset: nat, anchors: seq<Anchor>) {
    predicate Shaped() {
      |confirmFirst| == |confirmOffset| && |confirmSecond| == |confirmOffset| && |confirmOffset| <= CONFIRM_GROUPS
    }
  }

  function Blank(): Table {
    seq(0x40, _ => {})
  }

  /** The table has the tag `id` for byte `which` of every pair. */
  ghost predicate Tagged(table: Table, pairs: seq<Bytes>, which: nat, id: nat) {
    forall f :: f in pairs && which < |f| ==> id in table[Slot(f[which])]
  }

  ghost predicate Grown(table: Table, table': Table) {
    forall k :: 0 <= k < 0x40 ==> table[k] <= table'[k]
  }

  lemma {:induction false} GrownTagged(table: Table, table': Table, pairs: seq<Bytes>, which: nat, id: nat)
    requires Tagged(table, pairs, which, id) && Grown(table, table')
    ensures Tagged(table', pairs, which, id)
  {
  }

  method AddTable(table0: Table, pairs: seq<Bytes>, which: nat, id: nat) returns (table: Table)
    requires forall f :: f in pairs ==> which < |f|
    ensures Tagged(table, pairs, which, id) && Grown(table0, table)
  {
    table := table0;
    for k := 0 to |pairs|
      invariant Grown(table0, table) && forall j :: 0 <= j < k ==> id in table[Slot(pairs[j][which])]
    {
      var slot := Slot(pairs[k][which]);
      table := table[slot := table[slot] + {id}];
    }
  }

  /** Confirmation group `g` carries the tag `id` for all confirming pairs. */
  ghost predicate GroupTagged(f: Filter, g: nat, pairs: seq<Bytes>, id: nat) {
    && f.Shaped() && g < |f.confirmOffset|
    && Tagged(f.confirmFirst[g], pairs, 0, id) && Tagged(f.confirmSecond[g], pairs, 1, id)
  }

  ghost predicate OffsetTagged(f: Filter, c: nat, pairs: seq<Bytes>, id: nat) {
    exists g: nat :: g < |f.confirmOffset| && f.confirmOffset[g] == c && GroupTagged(f, g, pairs, id)
  }

  /** The filter knows everything about pattern `id`. */
  ghost predicate Compiled(f: Filter, id: nat) {
    && f.Shaped() && id < |f.anchors|
    && var a := f.anchors[id];
       && Tagged(f.first, a.primary, 0, id) && Tagged(f.second, a.primary, 1, id)
       && (forall c :: c in a.confirmOffset ==> c <= f.maxOffset && OffsetTagged(f, c, a.confirm, id))
       && (forall d :: d in a.starts ==> d <= f.maxOffset)
       && (forall g :: g in a.guardOffset ==> g <= f.maxOffset)
  }

  /** `f'` keeps everything `f` has. */
  ghost predicate Extends(f: Filter, f': Filter) {
    && f.Shaped() && f'.Shaped() && f.maxOffset <= f'.maxOffset
    && Grown(f.first, f'.first) && Grown(f.second, f'.second)
    && |f.confirmOffset| <= |f'.confirmOffset| && f'.confirmOffset[..|f.confirmOffset|] == f.confirmOffset
    && (forall g :: 0 <= g < |f.confirmOffset| ==> Grown(f.confirmFirst[g], f'.confirmFirst[g]) && Grown(f.confirmSecond[g], f'.confirmSecond[g]))
    && |f.anchors| <= |f'.anchors| && f'.anchors[..|f.anchors|] == f.anchors
  }

  lemma {:induction false} ExtendsOffset(f: Filter, f': Filter, c: nat, pairs: seq<Bytes>, id: nat)
    requires Extends(f, f') && OffsetTagged(f, c, pairs, id)
    ensures OffsetTagged(f', c, pairs, id)
  {
    var g: nat :| g < |f.confirmOffset| && f.confirmOffset[g] == c && GroupTagged(f, g, pairs, id);
    assert f'.confirmOffset[g] == f'.confirmOffset[..|f.confirmOffset|][g];
    GrownTagged(f.confirmFirst[g], f'.confirmFirst[g], pairs, 0, id);
    GrownTagged(f.confirmSecond[g], f'.confirmSecond[g], pairs, 1, id);
    assert GroupTagged(f', g, pairs, id);
  }

  lemma {:induction false} ExtendsCompiled(f: Filter, f': Filter, id: nat)
    requires Extends(f, f') && Compiled(f, id)
    ensures Compiled(f', id)
  {
    hide GroupTagged, OffsetTagged, Tagged, Grown;
    assert f'.anchors[id] == f'.anchors[..|f.anchors|][id];
    var a := f.anchors[id];
    GrownTagged(f.first, f'.first, a.primary, 0, id);
    GrownTagged(f.second, f'.second, a.primary, 1, id);
    forall c | c in a.confirmOffset ensures OffsetTagged(f', c, a.confirm, id) {
      ExtendsOffset(f, f', c, a.confirm, id);
    }
  }

  lemma {:induction false} ExtendsTransitive(f: Filter, f': Filter, f'': Filter)
    requires Extends(f, f') && Extends(f', f'')
    ensures Extends(f, f'')
  {
    var n := |f.confirmOffset|;
    assert f''.confirmOffset[..n] == f''.confirmOffset[..|f'.confirmOffset|][..n];
    var k := |f.anchors|;
    assert f''.anchors[..k] == f''.anchors[..|f'.anchors|][..k];
    forall g | 0 <= g < n ensures Grown(f.confirmFirst[g], f''.confirmFirst[g]) && Grown(f.confirmSecond[g], f''.confirmSecond[g]) {
      GrownTransitive(f.confirmFirst[g], f'.confirmFirst[g], f''.confirmFirst[g]);
      GrownTransitive(f.confirmSecond[g], f'.confirmSecond[g], f''.confirmSecond[g]);
    }
  }

  lemma {:induction false} GrownTransitive(a: Table, b: Table, c: Table)
    requires Grown(a, b) && Grown(b, c)
    ensures Grown(a, c)
  {
  }

  method MaxOf(offset0: nat, offsets: seq<nat>) returns (offset: nat)
    ensures offset0 <= offset && forall c :: c in offsets ==> c <= offset
  {
    offset := offset0;
    for k := 0 to |offsets|
      invariant offset0 <= offset && forall j :: 0 <= j < k ==> offsets[j] <= offset
    {
      offset := Max(offset, offsets[k]);
    }
  }

  /** The confirmation group of an offset, opened if need be. */
  method ConfirmationGroup(f0: Filter, offset: nat) returns (f: Option<Filter>, group: nat)
    requires f0.Shaped()
    ensures f.Some? ==> Extends(f0, f.value) && f.value.anchors == f0.anchors && group < |f.value.confirmOffset| && f.value.confirmOffset[group] == offset
  {
    group := 0;
    while group < |f0.confirmOffset|
      invariant group <= |f0.confirmOffset|
    {
      if f0.confirmOffset[group] == offset {
        return Some(f0), group;
      }
      group := group + 1;
    }
    if |f0.confirmOffset| == CONFIRM_GROUPS {
      return None, 0;
    }
    f := Some(f0.(confirmOffset := f0.confirmOffset + [offset], confirmFirst := f0.confirmFirst + [Blank()], confirmSecond := f0.confirmSecond + [Blank()]));
  }

  /** Enter one confirmation offset of a pattern. */
  method AddConfirmation(f0: Filter, offset: nat, pairs: seq<Bytes>, id: nat) returns (f: Option<Filter>)
    requires f0.Shaped() && forall p :: p in pairs ==> |p| == 2
    ensures f.Some? ==> Extends(f0, f.value) && f.value.anchors == f0.anchors && offset <= f.value.maxOffset && OffsetTagged(f.value, offset, pairs, id)
  {
    var grouped, g := ConfirmationGroup(f0, offset);
    if grouped.None? {
      return None;
    }
    var f1 := grouped.value;
    var first := AddTable(f1.confirmFirst[g], pairs, 0, id);
    var second := AddTable(f1.confirmSecond[g], pairs, 1, id);
    var f2 := f1.(confirmFirst := f1.confirmFirst[g := first], confirmSecond := f1.confirmSecond[g := second], maxOffset := Max(f1.maxOffset, offset));
    assert Extends(f1, f2);
    ExtendsTransitive(f0, f1, f2);
    assert GroupTagged(f2, g, pairs, id);
    return Some(f2);
  }

  /** The tables have the primary pairs of pattern `id`, and its first `k` confirmation
      offsets are entered. */
  ghost predicate Entering(f0: Filter, f: Filter, a: Anchor, k: nat) {
    var id := |f0.anchors|;
    && Extends(f0, f) && f.anchors == f0.anchors && k <= |a.confirmOffset|
    && Tagged(f.first, a.primary, 0, id) && Tagged(f.second, a.primary, 1, id)
    && (forall d :: d in a.starts ==> d <= f.maxOffset)
    && (forall g :: g in a.guardOffset ==> g <= f.maxOffset)
    && (forall j :: 0 <= j < k ==> a.confirmOffset[j] <= f.maxOffset && OffsetTagged(f, a.confirmOffset[j], a.confirm, id))
  }

  lemma {:induction false} EnterNext(f0: Filter, f: Filter, f': Filter, a: Anchor, k: nat)
    requires Entering(f0, f, a, k) && k < |a.confirmOffset| && Extends(f, f') && f'.anchors == f.anchors
    requires a.confirmOffset[k] <= f'.maxOffset && OffsetTagged(f', a.confirmOffset[k], a.confirm, |f0.anchors|)
    ensures Entering(f0, f', a, k + 1)
  {
    hide OffsetTagged, Tagged, Grown;
    var id := |f0.anchors|;
    ExtendsTransitive(f0, f, f');
    GrownTagged(f.first, f'.first, a.primary, 0, id);
    GrownTagged(f.second, f'.second, a.primary, 1, id);
    forall j | 0 <= j < k ensures OffsetTagged(f', a.confirmOffset[j], a.confirm, id) {
      ExtendsOffset(f, f', a.confirmOffset[j], a.confirm, id);
    }
  }

  lemma {:induction false} FinishEntry(f0: Filter, f: Filter, a: Anchor, f': Filter)
    requires Entering(f0, f, a, |a.confirmOffset|) && f' == f.(anchors := f0.anchors + [a])
    ensures Extends(f0, f') && Compiled(f', |f0.anchors|)
  {
    hide OffsetTagged, Tagged, Grown;
    GrownItself(f);
    forall c | c in a.confirmOffset ensures c <= f'.maxOffset && OffsetTagged(f', c, a.confirm, |f0.anchors|) {
      var j :| 0 <= j < |a.confirmOffset| && a.confirmOffset[j] == c;
      ExtendsOffset(f, f', c, a.confirm, |f0.anchors|);
    }
  }

  lemma {:induction false} GrownItself(f: Filter)
    requires f.Shaped()
    ensures Grown(f.first, f.first) && Grown(f.second, f.second)
    ensures forall g :: 0 <= g < |f.confirmOffset| ==> Grown(f.confirmFirst[g], f.confirmFirst[g]) && Grown(f.confirmSecond[g], f.confirmSecond[g])
  {
  }

  /** Enter the chosen anchor of the next pattern. */
  method AddAnchor(f0: Filter, a: Anchor) returns (f: Option<Filter>)
    requires f0.Shaped() && (forall p :: p in a.primary ==> |p| == 2) && (forall p :: p in a.confirm ==> |p| == 2)
    ensures f.Some? ==> Extends(f0, f.value) && f.value.anchors == f0.anchors + [a] && Compiled(f.value, |f0.anchors|)
  {
    hide GroupTagged, OffsetTagged, Tagged, Grown;
    var id := |f0.anchors|;
    var first := AddTable(f0.first, a.primary, 0, id);
    var second := AddTable(f0.second, a.primary, 1, id);
    var start := MaxOf(f0.maxOffset, a.starts);
    var widest := MaxOf(start, a.guardOffset);
    var cur := f0.(first := first, second := second, maxOffset := widest);
    GrownItself(f0);
    for k := 0 to |a.confirmOffset|
      invariant cur.Shaped() && Entering(f0, cur, a, k)
    {
      hide Extends, Entering;
      var next := AddConfirmation(cur, a.confirmOffset[k], a.confirm, id);
      if next.None? {
        return None;
      }
      SameAnchors(f0, cur, a, k);
      EnterNext(f0, cur, next.value, a, k);
      cur := next.value;
      StillShaped(f0, cur, a, k + 1);
    }
    var done := cur.(anchors := f0.anchors + [a]);
    FinishEntry(f0, cur, a, done);
    return Some(done);
  }

  lemma {:induction false} SameAnchors(f0: Filter, f: Filter, a: Anchor, k: nat)
    requires Entering(f0, f, a, k)
    ensures f.anchors == f0.anchors
  {
  }

  lemma {:induction false} StillShaped(f0: Filter, f: Filter, a: Anchor, k: nat)
    requires Entering(f0, f, a, k)
    ensures f.Shaped()
  {
  }
}
