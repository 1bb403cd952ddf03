/** One pattern anchored by two of its units that always take two bytes and stand at fixed
    offsets. Where both stand, the pattern is confirmed by its packed spellings or by
    comparing tokens. */
module UnicodePairs {
  import opened Utf8
  import opened Spec
  import opened Answers
  import opened Displacements
  import opened Plan
  import opened Search
  import opened Singles
  import opened RootFilters
  import opened Filtered
  import opened Confirm
  import opened ConfirmMakers
  import Fold
  import TripleFilters

  /** A folded plan for one nonempty pattern without opaque continuation bytes. */
  ghost predicate OnePattern(p: SearchPlan)
    reads p
  {
    p.Valid() && !p.mode.exact && |p.patterns| == 1 && p.patterns[0] != [] && !OpaqueContinuation(p)
  }

  ghost predicate Lone(p: SearchPlan, h: Bytes, q: nat)
    requires p.Valid() && |p.patterns| == 1
    reads p
  {
    p.mode.Valid() && q <= |h| && MatchEnd(p.mode, h, q, p.Ps()[0]).Some?
  }

  // ----- compiling

  /** The first `n` units of a match always take `offset` bytes. */
  ghost predicate PrefixWidth(p: SearchPlan, n: nat, offset: nat)
    requires p.Valid() && |p.patterns| == 1
    reads p
  {
    n <= |p.Ps()[0]| && forall h: Bytes, q: nat :: Lone(p, h, q) ==> MatchEnd(p.mode, h, q, p.Ps()[0][..n]) == Some(q + offset)
  }

  /** Every match shows one of the pairs at the offset. */
  ghost predicate Shows(p: SearchPlan, pairs: seq<Bytes>, offset: nat)
    requires p.Valid() && |p.patterns| == 1
    reads p
  {
    forall h: Bytes, q: nat :: Lone(p, h, q) ==> PairHere(pairs, h, q + offset)
  }

  predicate OneWidth(forms: seq<Bytes>, width: nat) {
    forms != [] && forall f :: f in forms ==> |f| == width
  }

  lemma {:induction false} PrefixNext(p: SearchPlan, forms: seq<Bytes>, n: nat, offset: nat, width: nat)
    requires p.Valid() && !p.mode.exact && |p.patterns| == 1 && PrefixWidth(p, n, offset) && n < |p.Ps()[0]|
    requires p.mode.Valid() && UnitForms(p.mode, p.Ps()[0][n], forms) && OneWidth(forms, width)
    ensures PrefixWidth(p, n + 1, offset + width)
    ensures width == 2 ==> Shows(p, forms, offset)
  {
    hide SearchPlan.Valid, MatchEnd, UnitForms, OneWidth;
    var m, a := p.mode, p.Ps()[0];
    forall h: Bytes, q: nat | Lone(p, h, q)
      ensures MatchEnd(m, h, q, a[..n + 1]) == Some(q + (offset + width)) && (width == 2 ==> PairHere(forms, h, q + offset))
    {
      TripleFilters.MatchUnit(m, h, q, a, n);
      UnitSpelled(m, h, q + offset, a[n], forms, width);
    }
  }

  /** A unit that matches is one of the spellings. */
  lemma {:induction false} UnitSpelled(m: Mode, h: Bytes, e: nat, u: CodeUnit, forms: seq<Bytes>, width: nat)
    requires m.Valid() && !m.exact && e < |h| && Same(m, UnitAt(m, h, e), u) && UnitForms(m, u, forms) && OneWidth(forms, width)
    ensures SizeAt(m, h, e) == width && e + width <= |h| && h[e..e + width] in forms
  {
    hide FormLen, FormRune, FormsFor;
    match u {
      case Rune(r) =>
        FormIsUnit(m, h, e, r, forms);
      case Raw(b) =>
        assert forms[0] in forms && h[e..e + 1] == [b];
    }
  }

  datatype Unit = Unit(pairs: seq<Bytes>, at: nat)

  datatype UnicodePair = UnicodePair(pairs: seq<Bytes>, at: nat, confirm: seq<Bytes>, confirmAt: nat)

  const MAX_PAIR_UNITS := 8

  ghost predicate PairAnchored(p: SearchPlan, anchor: UnicodePair)
    requires p.Valid() && |p.patterns| == 1
    reads p
  {
    anchor.at < anchor.confirmAt && Shows(p, anchor.pairs, anchor.at) && Shows(p, anchor.confirm, anchor.confirmAt)
  }

  method IsOneWidth(forms: seq<Bytes>, width: nat) returns (same: bool)
    requires forms != []
    ensures same <==> OneWidth(forms, width)
  {
    for i := 0 to |forms|
      invariant forall j :: 0 <= j < i ==> |forms[j]| == width
    {
      if |forms[i]| != width {
        assert forms[i] in forms;
        return false;
      }
    }
    same := true;
  }

  /** The two-byte units of up to two spellings behind a prefix of fixed width; the first
      is the anchor and the second its partner. */
  method MakeUnicodePairAnchor(p: SearchPlan) returns (anchor: Option<UnicodePair>)
    requires OnePattern(p)
    ensures anchor.Some? ==> PairAnchored(p, anchor.value)
  {
    hide SearchPlan.Valid, OpaqueContinuation, UnitForms, OneWidth, Units, PrefixWidth, Shows;
    LoneSpelling(p);
    var forms := PatternRawForms(p.mode, p.patterns[0]);
    var offset: nat, fixedPrefix, units: seq<Unit> := 0, true, [];
    NoPrefix(p);
    for n := 0 to |forms|
      invariant fixedPrefix ==> PrefixWidth(p, n, offset)
      invariant forall k :: 0 <= k < |units| ==> Shows(p, units[k].pairs, units[k].at) && units[k].at < offset
      invariant forall k :: 0 < k < |units| ==> units[k - 1].at < units[k].at
    {
      SomeForm(p.mode, p.Ps()[0][n], forms[n]);
      var width := |forms[n][0]|;
      var same := IsOneWidth(forms[n], width);
      if fixedPrefix && |units| < MAX_PAIR_UNITS && |forms[n]| <= 2 && width == 2 && same {
        PrefixNext(p, forms[n], n, offset, width);
        units := units + [Unit(forms[n], offset)];
      }
      if !same {
        fixedPrefix := false;
      } else if fixedPrefix {
        PrefixNext(p, forms[n], n, offset, width);
      }
      offset := offset + width;
    }
    if |units| < 2 {
      return None;
    }
    return Some(UnicodePair(units[0].pairs, units[0].at, units[1].pairs, units[1].at));
  }

  lemma {:induction false} SomeForm(m: Mode, u: CodeUnit, forms: seq<Bytes>)
    requires m.Valid() && UnitForms(m, u, forms)
    ensures forms != [] && |forms[0]| > 0
  {
    if u.Rune? {
      FormBytes(m.fold, u.rune, forms, forms[0]);
    }
  }

  lemma {:induction false} NoPrefix(p: SearchPlan)
    requires p.Valid() && |p.patterns| == 1
    ensures PrefixWidth(p, 0, 0)
  {
    hide SearchPlan.Valid;
  }

  // ----- searching

  /** Both units of the anchor stand where a match that shows its anchor at `at` has them. */
  predicate BothStand(anchor: UnicodePair, h: Bytes, at: nat)
    requires anchor.at < anchor.confirmAt
  {
    PairHere(anchor.pairs, h, at) && PairHere(anchor.confirm, h, at + (anchor.confirmAt - anchor.at))
  }

  /** The next position from `at` where both units stand; the last few are not looked at. */
  method PairPairSkip(anchor: UnicodePair, h: Bytes, from: nat) returns (at: nat)
    requires anchor.at < anchor.confirmAt
    ensures from <= at && forall k :: from <= k < at ==> !BothStand(anchor, h, k)
    ensures at + (anchor.confirmAt - anchor.at) + 1 < |h| ==> BothStand(anchor, h, at)
    ensures at + (anchor.confirmAt - anchor.at) + 1 >= |h| ==> !BothStand(anchor, h, at)
  {
    var delta: nat := anchor.confirmAt - anchor.at;
    at := from;
    while at + delta + 1 < |h|
      invariant from <= at && forall k :: from <= k < at ==> !BothStand(anchor, h, k)
    {
      if h[at..at + 2] in anchor.pairs && h[at + delta..at + delta + 2] in anchor.confirm {
        break;
      }
      at := at + 1;
    }
  }

  /** No match shows its anchor before `at`. */
  ghost predicate NoneShown(p: SearchPlan, h: Bytes, back: nat, at: nat)
    requires p.Valid() && |p.patterns| == 1
    reads p
  {
    forall q: nat :: q + back < at ==> !Lone(p, h, q)
  }

  lemma {:induction false} MatchShowsBoth(p: SearchPlan, anchor: UnicodePair, h: Bytes, q: nat)
    requires p.Valid() && |p.patterns| == 1 && PairAnchored(p, anchor) && Lone(p, h, q)
    ensures BothStand(anchor, h, q + anchor.at)
  {
    hide SearchPlan.Valid, Lone, PairHere;
  }

  /** Positions skipped show no match. */
  lemma {:induction false} SkipShowsNone(p: SearchPlan, anchor: UnicodePair, h: Bytes, from: nat, at: nat)
    requires p.Valid() && |p.patterns| == 1 && PairAnchored(p, anchor) && NoneShown(p, h, anchor.at, from)
    requires forall k :: from <= k < at ==> !BothStand(anchor, h, k)
    ensures NoneShown(p, h, anchor.at, at)
  {
    hide SearchPlan.Valid, Lone, BothStand, PairAnchored;
    forall q: nat | q + anchor.at < at ensures !Lone(p, h, q) {
      if Lone(p, h, q) {
        MatchShowsBoth(p, anchor, h, q);
      }
    }
  }

  lemma {:induction false} LoneBest(p: SearchPlan, h: Bytes, q: nat)
    requires OnePattern(p) && q <= |h|
    ensures p.mode.Valid() && BestAt(p.mode, h, q, p.Ps()) == if Lone(p, h, q) then Some(0) else None
  {
    hide AllRows, MatchEnd;
    LoneSpelling(p);
    if Lone(p, h, q) {
      assert MatchesAt(p.mode, h, q, p.Ps(), 0);
    }
  }

  lemma {:induction false} LoneNonempty(p: SearchPlan)
    requires OnePattern(p)
    ensures |p.Ps()| == 1 && p.Ps()[0] != []
  {
    hide SearchPlan.Valid, OpaqueContinuation;
    LoneSpelling(p);
  }

  /** A match before which no other starts is what Find returns. */
  lemma {:induction false} LoneFound(p: SearchPlan, h: Bytes, back: nat, start: nat)
    requires OnePattern(p) && Lone(p, h, start) && NoneShown(p, h, back, start + back)
    ensures p.mode.Valid() && FindFrom(p.mode, h, p.Ps()) == Some(Hit(0, start))
  {
    hide SearchPlan.Valid, OpaqueContinuation, Lone, FindFrom, BestAt;
    LoneNonempty(p);
    LoneBoundary(p, h, start);
    LoneBest(p, h, start);
    forall q | 0 <= q < start && Reaches(p.mode, h, 0, q) ensures BestAt(p.mode, h, q, p.Ps()) == None {
      LoneBest(p, h, q);
      assert !Lone(p, h, q);
    }
    FindIs(p.mode, h, p.Ps(), 0, Hit(0, start));
  }

  lemma {:induction false} LoneBoundary(p: SearchPlan, h: Bytes, start: nat)
    requires OnePattern(p) && Lone(p, h, start)
    ensures start <= |h| && Reaches(p.mode, h, 0, start)
  {
    hide SearchPlan.Valid, OpaqueContinuation, MatchEnd;
    LoneNonempty(p);
    EmptyEnd(p.mode, h, p.Ps()[0]);
    StartIsBoundary(p, h, start, 0, 0);
  }

  lemma {:induction false} EmptyEnd(m: Mode, h: Bytes, a: Pattern)
    requires m.Valid() && a != []
    ensures MatchEnd(m, h, |h|, a) == None
  {
  }

  lemma {:induction false} LoneNone(p: SearchPlan, h: Bytes)
    requires OnePattern(p) && forall q: nat :: !Lone(p, h, q)
    ensures p.mode.Valid() && FindFrom(p.mode, h, p.Ps()) == None
  {
    hide SearchPlan.Valid, OpaqueContinuation, Lone, FindFrom, BestAt;
    LoneBest(p, h, |h|);
    forall q | 0 <= q < |h| && Reaches(p.mode, h, 0, q) ensures BestAt(p.mode, h, q, p.Ps()) == None {
      LoneBest(p, h, q);
    }
    FindIsNone(p.mode, h, p.Ps(), 0);
  }

  /** Compare tokens wherever both units stand. */
  method FindUnicodePairReplayed(p: SearchPlan, tokens: seq<nat>, anchor: UnicodePair, h: Bytes) returns (hit: Option<Hit>)
    requires OnePattern(p) && p.toks == [tokens] && PairAnchored(p, anchor)
    ensures hit == FindFrom(p.mode, h, p.Ps())
  {
    hide SearchPlan.Valid, OpaqueContinuation, FindFrom, MatchEnd, Shows, BothStand;
    LoneSpelling(p);
    var delta: nat := anchor.confirmAt - anchor.at;
    var at: nat := 0;
    while at + delta + 1 < |h|
      invariant NoneShown(p, h, anchor.at, at)
    {
      var next := PairPairSkip(anchor, h, at);
      SkipShowsNone(p, anchor, h, at, next);
      at := next;
      if at + delta + 1 >= |h| {
        break;
      }
      if at >= anchor.at {
        var start: nat := at - anchor.at;
        var matched := MatchesSingleAt(p, tokens, h, start);
        if matched {
          LoneFound(p, h, anchor.at, start);
          return Some(Hit(0, start));
        }
      }
      at := at + 1;
    }
    NoneLeft(p, anchor, h, at);
    return None;
  }

  lemma {:induction false} NoneLeft(p: SearchPlan, anchor: UnicodePair, h: Bytes, at: nat)
    requires OnePattern(p) && PairAnchored(p, anchor) && NoneShown(p, h, anchor.at, at) && at + (anchor.confirmAt - anchor.at) + 1 >= |h|
    ensures p.mode.Valid() && FindFrom(p.mode, h, p.Ps()) == None
  {
    hide SearchPlan.Valid, OpaqueContinuation, FindFrom, Lone, Shows, PairAnchored;
    forall q: nat ensures !Lone(p, h, q) {
      if Lone(p, h, q) {
        MatchShowsBoth(p, anchor, h, q);
      }
    }
    LoneNone(p, h);
  }

  // ----- confirming by packed spellings

  /** A packed confirmation of the plan's pattern. */
  ghost predicate Confirming(p: SearchPlan, c: Bytes, runes: seq<int>, all: seq<seq<Bytes>>, layout: Layout)
    requires p.Valid() && |p.patterns| == 1
    reads p
  {
    p.mode.Valid() && !p.mode.exact && Valid(c) && RunesOf(p.Ps()[0], runes) && Confirms(c, p.mode.fold, runes, all, layout)
  }

  method WidthAt(p: SearchPlan, c: Bytes, h: Bytes, start: nat, ghost runes: seq<int>, ghost all: seq<seq<Bytes>>, ghost layout: Layout)
    returns (width: Option<nat>)
    requires OnePattern(p) && Confirming(p, c, runes, all, layout)
    ensures width.Some? <==> Lone(p, h, start)
    ensures width.Some? ==> MatchEnd(p.mode, h, start, p.Ps()[0]) == Some(start + width.value)
  {
    hide SearchPlan.Valid, OpaqueContinuation, MatchEnd, RunesOf, Confirms, Valid;
    width := MatchWidthAt(c, h, start, p.mode, p.Ps()[0], runes, all, layout);
  }

  lemma {:induction false} LoneWithin(p: SearchPlan, c: Bytes, h: Bytes, q: nat, runes: seq<int>, all: seq<seq<Bytes>>, layout: Layout)
    requires OnePattern(p) && Confirming(p, c, runes, all, layout) && Lone(p, h, q)
    ensures |c| > VALID_AT && q + MinLength(c) <= |h|
  {
    hide SearchPlan.Valid, OpaqueContinuation, MatchEnd, RunesOf, Confirms, MinLength;
    ConfirmedWithin(c, h, q, p.mode, p.Ps()[0], runes, all, layout);
  }

  /** The answer of the search, with the width that the confirmation read. */
  ghost predicate Confirmed(p: SearchPlan, h: Bytes, hit: Option<Hit>, width: nat)
    requires p.Valid() && |p.patterns| == 1
    reads p
  {
    && p.mode.Valid() && hit == FindFrom(p.mode, h, p.Ps())
    && (hit.Some? ==> hit.value.start <= |h| && MatchEnd(p.mode, h, hit.value.start, p.Ps()[0]) == Some(hit.value.start + width))
  }

  /** Scan a number of candidates, the units and the spellings together. */
  method PairPairConfirmBytes(p: SearchPlan, anchor: UnicodePair, c: Bytes, h: Bytes, from: nat, candidates: nat,
                              ghost runes: seq<int>, ghost all: seq<seq<Bytes>>, ghost layout: Layout)
    returns (skipped: nat, width: nat)
    requires OnePattern(p) && PairAnchored(p, anchor) && Confirming(p, c, runes, all, layout) && from >= anchor.at
    requires NoneShown(p, h, anchor.at, from)
    ensures skipped <= candidates && NoneShown(p, h, anchor.at, from + skipped)
    ensures skipped < candidates ==> Confirmed(p, h, Some(Hit(0, from + skipped - anchor.at)), width)
  {
    hide SearchPlan.Valid, OpaqueContinuation, FindFrom, MatchEnd, Shows, Lone, Confirming;
    var at := from;
    while at - from < candidates
      invariant from <= at <= from + candidates && NoneShown(p, h, anchor.at, at)
    {
      var start: nat := at - anchor.at;
      if BothStand(anchor, h, at) {
        var w := WidthAt(p, c, h, start, runes, all, layout);
        if w.Some? {
          LoneFound(p, h, anchor.at, start);
          LoneBoundary(p, h, start);
          return at - from, w.value;
        }
      } else if Lone(p, h, start) {
        MatchShowsBoth(p, anchor, h, start);
      }
      at := at + 1;
    }
    return candidates, 0;
  }

  /** Whole blocks of candidates first, then the rest one by one. */
  method FindUnicodePairConfirm(p: SearchPlan, anchor: UnicodePair, c: Bytes, h: Bytes, ghost runes: seq<int>, ghost all: seq<seq<Bytes>>, ghost layout: Layout)
    returns (hit: Option<Hit>, width: nat)
    requires OnePattern(p) && PairAnchored(p, anchor) && Confirming(p, c, runes, all, layout)
    ensures Confirmed(p, h, hit, width)
  {
    hide SearchPlan.Valid, OpaqueContinuation, FindFrom, MatchEnd, Shows, Lone, Confirms, RunesOf, BothStand, MinLength;
    if |h| < MinLength(c) {
      BeyondMinimum(p, c, h, anchor, anchor.at, runes, all, layout);
      return None, 0;
    }
    var at := anchor.at;
    if |h| >= c[MAX_LENGTH_AT] {
      var full: nat := (|h| - c[MAX_LENGTH_AT] + 1) / 64 * 64;
      if full != 0 {
        var skipped, w := PairPairConfirmBytes(p, anchor, c, h, at, full, runes, all, layout);
        if skipped < full {
          return Some(Hit(0, at + skipped - anchor.at)), w;
        }
        at := at + full;
      }
    }
    var lastAnchor: nat := |h| - MinLength(c) + anchor.at;
    while at <= lastAnchor
      invariant at >= anchor.at && NoneShown(p, h, anchor.at, at)
      decreases lastAnchor + 1 - at
    {
      var next := PairPairSkip(anchor, h, at);
      SkipShowsNone(p, anchor, h, at, next);
      at := next;
      if at > lastAnchor {
        break;
      }
      var start: nat := at - anchor.at;
      var w := WidthAt(p, c, h, start, runes, all, layout);
      if w.Some? {
        LoneFound(p, h, anchor.at, start);
        LoneBoundary(p, h, start);
        return Some(Hit(0, start)), w.value;
      }
      at := at + 1;
    }
    BeyondMinimum(p, c, h, anchor, at, runes, all, layout);
    return None, 0;
  }

  lemma {:induction false} BeyondMinimum(p: SearchPlan, c: Bytes, h: Bytes, anchor: UnicodePair, at: nat, runes: seq<int>, all: seq<seq<Bytes>>, layout: Layout)
    requires OnePattern(p) && Confirming(p, c, runes, all, layout) && NoneShown(p, h, anchor.at, at)
    requires |c| > VALID_AT && at + MinLength(c) > |h| + anchor.at
    ensures Confirmed(p, h, None, 0)
  {
    hide SearchPlan.Valid, OpaqueContinuation, FindFrom, MatchEnd, Lone, Confirming, MinLength;
    forall q: nat ensures !Lone(p, h, q) {
      if Lone(p, h, q) {
        LoneWithin(p, c, h, q, runes, all, layout);
      }
    }
    LoneNone(p, h);
  }
}
