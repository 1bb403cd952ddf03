/** A search that the partition answers wrong. The patterns pass every gate of the route:
    nothing is empty or opaque, the roots are generic, the four roots that ASCII text can
    reach have a triple each, and seventeen wide scalars leave no filter for other text. So
    does the text, for it is long, clean at its end, and has a single exceptional run. */
module PartitionMiss {
  import opened Utf8
  import opened Spec
  import opened Cuts
  import opened Truncation
  import opened Lexer
  import opened AsciiSkip
  import opened Displacements
  import opened Plan
  import opened Search
  import opened Decoded
  import opened RootFilters
  import opened TripleFilters
  import opened Filtered
  import opened MultiAnchors
  import opened RawEach
  import opened MissPatterns
  import opened MissFilters
  import opened Matching
  import Fold
  import Automaton
  import Links

  // ----- the gates on the text

  /** The text is long, and a window is short beside it. */
  predicate WindowWorthwhile(length: nat, maxBytes: nat) {
    length >= 2048 && maxBytes > 0 && maxBytes <= length / 8
  }

  /** Something exceptional stands in the last 64 bytes. */
  predicate TailBoundary(h: Bytes) {
    |h| < 64 || exists q :: |h| - 64 <= q < |h| && Exceptional(h[q])
  }

  function HighIn(h: Bytes, from: nat, to: nat): set<int> {
    set q | from <= q < to && q < |h| && !IsAscii(h[q])
  }

  /** A stretch without NUL and with fewer than sixteen high bytes. */
  predicate SparseSample(h: Bytes, from: nat, to: nat) {
    (forall q :: from <= q < to && q < |h| ==> h[q] != 0) && |HighIn(h, from, to)| < 16
  }

  /** The first stretch behind the first exceptional byte is sparse, and so are three more
      that lie apart from it. */
  predicate SparseEnough(h: Bytes, first: nat)
    requires |h| >= 1024
  {
    var end := if first + 1024 < |h| then first + 1024 else |h|;
    && SparseSample(h, first, end)
    && (|h| - first > 1024 ==>
          && (end <= |h| / 4 ==> SparseSample(h, |h| / 4, |h| / 4 + 1024))
          && (end <= |h| / 2 ==> SparseSample(h, |h| / 2, |h| / 2 + 1024))
          && (end <= |h| - 1024 ==> SparseSample(h, |h| - 1024, |h|)))
  }

  // ----- the patterns

  /** The first pattern is shadowed by the second; the text's other scalars are spare. */
  lemma {:induction false} Shadowed(m: Mode, ps: seq<Pattern>)
    requires m.Valid() && Ordinary(m.fold) && Spelt(ps)
    ensures |ps[0]| == 8 && Shadows(m, ps, 0, 1, 0) && Spelling(m, ps[0], Ascii(WordOf(0)))
    ensures Spare(m, ps, 0x2E) && Spare(m, ps, 0x3042)
  {
    hide Same, Ordinary, Wide, Used;
    var f := Ascii(WordOf(0));
    assert IsWord(ps[0], WordOf(0)) && IsWord(ps[1], WordOf(1));
    forall j | 0 <= j < 8 ensures 0 < f[j] < 0x80 && Same(m, Rune(f[j]), ps[0][j]) {
      SameReflexive(m, ps[0][j]);
    }
    forall j | 0 <= j < 8 ensures AsciiFolds(m, ps[0][j]) {
      assert 0 < f[j] < 0x80 && Same(m, Rune(f[j]), ps[0][j]);
    }
    forall j | 0 <= j < 4 ensures Same(m, ps[0][0 + j], ps[1][j]) {
      SameReflexive(m, ps[0][j]);
    }
    forall i: nat, j: nat | i < 22 && j < |ps[i]| ensures !Same(m, Rune(0x2E), ps[i][j]) && !Same(m, Rune(0x3042), ps[i][j]) {
      UnitUsed(ps, i, j);
      SpareHere(m, 0x2E, ps[i][j].rune);
      SpareHere(m, 0x3042, ps[i][j].rune);
    }
  }

  lemma {:induction false} SpareHere(m: Mode, x: int, r: int)
    requires m.Valid() && Ordinary(m.fold) && Used(r) && (x == 0x2E || x == 0x3042)
    ensures !Same(m, Rune(x), Rune(r))
  {
    if Same(m, Rune(x), Rune(r)) {
      Unmoved(m.fold, x, r);
      assert false;
    }
  }

  /** Narrow units take a byte each. */
  lemma {:induction false} NarrowSpan(m: Mode, p: Pattern)
    requires m.Valid() && Encodable(p) && forall j :: 0 <= j < |p| ==> UnitSpan(m, p[j]) == 1
    ensures Span(m, p) == |p|
  {
    if p != [] {
      NarrowSpan(m, p[..|p| - 1]);
    }
  }

  lemma {:induction false} DigitNarrow(t: Fold.Table, n: nat)
    requires Fold.Valid(t) && 0x30 !in t
    ensures Fold.WidestOf(t, 0x30, n) == 1
  {
    if n > 0 {
      DigitNarrow(t, n - 1);
    }
  }

  lemma {:induction false} PatternSpans(m: Mode, ps: seq<Pattern>, i: nat)
    requires m.Valid() && Ordinary(m.fold) && Spelt(ps) && i < 22 && Encodable(ps[i])
    ensures if i < 5 then Span(m, ps[i]) == |ps[i]| == |WordOf(i)| else Span(m, ps[i]) <= 4
  {
    if i < 5 {
      assert IsWord(ps[i], WordOf(i));
      DigitNarrow(m.fold, Fold.Period(m.fold, 0x30));
      NarrowSpan(m, ps[i]);
    } else {
      SpanEmpty(m);
      SpanStep(m, ps[i], 0);
      assert ps[i][..0] == [] && ps[i][..1] == ps[i];
    }
  }

  // ----- what the plan's gates see

  /** A plan for the patterns passes the gates on them: nothing empty, nothing opaque,
      several patterns, and a root that is neither one byte nor one letter. */
  lemma {:induction false} PlanPasses(p: SearchPlan)
    requires MissPlan(p)
    ensures p.empty.None? && |p.patterns| > 1 && !OpaqueContinuation(p) && !SpecialRoot(p)
    ensures p.mode.Valid() && p.maxBytes == 8 && p.maxUnits != 0
  {
    hide SearchPlan.Valid, SearchPlan.NoSpareToken, SearchPlan.NoSpareWord, SearchPlan.Attained, Ordinary, Spelt, OpaqueContinuation;
    PlanSpelt(p);
    PlanBytes(p);
    NothingOpaque(p);
    RootsFlagged(p);
    NothingEmpty(p);
  }

  lemma {:induction false} NothingOpaque(p: SearchPlan)
    requires MissPlan(p)
    ensures !OpaqueContinuation(p)
  {
    hide SearchPlan.Valid, SearchPlan.NoSpareToken, SearchPlan.NoSpareWord, SearchPlan.Attained, Ordinary;
    if b: byte :| IsContinuation(b) && p.tokens.Of(Raw(b)) != 0 {
      NoOpaqueToken(p, b);
      assert false;
    }
  }

  lemma {:induction false} NothingEmpty(p: SearchPlan)
    requires MissPlan(p) && Spelt(p.Ps())
    ensures p.empty.None? && p.maxUnits != 0
  {
    hide SearchPlan.Valid, SearchPlan.NoSpareToken, SearchPlan.NoSpareWord, SearchPlan.Attained, Ordinary;
    EmptyIs(p);
    assert IsWord(p.Ps()[0], WordOf(0));
    forall i: nat | i < 22 ensures p.Ps()[i] != [] {
      assert i < 5 ==> IsWord(p.Ps()[i], WordOf(i));
    }
  }

  lemma {:induction false} EmptyIs(p: SearchPlan)
    requires p.Valid()
    ensures p.empty.Some? ==> p.empty.value < |p.Ps()| && p.Ps()[p.empty.value] == []
    ensures forall i :: 0 <= i < |p.Ps()| ==> |p.Ps()[i]| <= p.maxUnits
  {
    hide AllRows, TokensAreClasses, Links.AllLinked, Automaton.Spelled, Spells;
  }

  /** The widest pattern is as wide as the bound says. */
  lemma {:induction false} WidestPattern(p: SearchPlan) returns (i: nat)
    requires p.Valid() && p.Attained(|p.patterns|) && |p.patterns| > 0
    ensures p.mode.Valid() && i < |p.Ps()| && (forall k :: 0 <= k < |p.Ps()| ==> Encodable(p.Ps()[k]) && Span(p.mode, p.Ps()[k]) <= p.maxBytes)
    ensures p.maxBytes > 0 ==> Span(p.mode, p.Ps()[i]) == p.maxBytes
  {
    hide AllRows, TokensAreClasses, Links.AllLinked, Automaton.Spelled, Spells;
    i := 0;
    if p.maxBytes > 0 {
      i :| 0 <= i < |p.patterns| && Encodable(p.Ps()[i]) && Span(p.mode, p.Ps()[i]) == p.maxBytes;
    }
  }

  lemma {:induction false} PlanBytes(p: SearchPlan)
    requires MissPlan(p) && Spelt(p.Ps())
    ensures p.maxBytes == 8
  {
    hide SearchPlan.Valid, SearchPlan.NoSpareToken, SearchPlan.NoSpareWord, SearchPlan.Attained, Ordinary, Spelt, Wide, Span;
    var i := WidestPattern(p);
    PlanSpelt(p);
    PatternSpans(p.mode, p.Ps(), 0);
    PatternSpans(p.mode, p.Ps(), i);
  }

  /** Three letters start patterns, so the root is generic. */
  lemma {:induction false} RootsFlagged(p: SearchPlan)
    requires MissPlan(p) && Spelt(p.Ps())
    ensures !SpecialRoot(p)
  {
    hide SearchPlan.Valid, SearchPlan.NoSpareToken, SearchPlan.NoSpareWord, SearchPlan.Attained, Ordinary, Special, RootByte;
    assert IsWord(p.Ps()[0], WordOf(0)) && IsWord(p.Ps()[2], WordOf(2)) && IsWord(p.Ps()[3], WordOf(3));
    RootFlagged(p, 0, 0x61);
    RootFlagged(p, 2, 0x64);
    RootFlagged(p, 3, 0x67);
    ThreeFlagged(RootFlags(p));
  }

  lemma {:induction false} ThreeFlagged(flags: seq<bool>)
    requires |flags| == 0x80 && flags[0x61] && flags[0x64] && flags[0x67]
    ensures !Special(flags)
  {
  }

  /** The first byte of a pattern is a root byte. */
  lemma {:induction false} RootFlagged(p: SearchPlan, i: nat, b: byte)
    requires p.Valid() && i < |p.Ps()| && p.Ps()[i] != [] && b < 0x80 && p.Ps()[i][0] == Rune(b)
    ensures |p.nodes| > 0 && RootByte(p, b)
  {
    hide AllRows, TokensAreClasses, Links.AllLinked, Automaton.Spelled;
    RootOf(p, i);
    SameReflexive(p.mode, Rune(b));
    assert Spells(p.mode, p.tokens, p.Ps()[i], p.toks[i]);
  }

  /** A wide scalar has no spelling of two bytes, so no anchors are tagged. */
  lemma {:induction false} NotArmed(p: SearchPlan, f: Filter)
    requires MissPlan(p)
    ensures !Armed(p, f)
  {
    hide SearchPlan.Valid, SearchPlan.NoSpareToken, SearchPlan.NoSpareWord, SearchPlan.Attained, Ordinary;
    WidesShort(p, 5);
    if AnchorOf(p, f, 5) {
      OneUnit(p, f);
      assert false;
    }
  }

  /** An anchor takes three units. */
  lemma {:induction false} OneUnit(p: SearchPlan, f: Filter)
    requires AnchorOf(p, f, 5)
    ensures |p.Ps()[5]| >= 3
  {
    var runes :| RunesOf(p.Ps()[5], runes) && Sound(p.mode.fold, runes, f.anchors[5]);
  }

  // ----- the text

  /** U+3042 ".abc0wxyz" and dots behind it. */
  function Text(tail: nat): (h: Bytes) {
    [0xE3, 0x81, 0x82] + Ascii("." + WordOf(0)) + Pad(0x2E, tail)
  }

  lemma {:induction false} TextIsTrap(tail: nat)
    ensures Text(tail) == Trap(Ascii(WordOf(0)), 8, 0x2E, 0x3042, tail) && TrapStart(Ascii(WordOf(0)), 8, 0x3042) == 4
    ensures |Text(tail)| == 12 + tail && forall q :: 3 <= q < 12 + tail ==> 0 < Text(tail)[q] < 0x80
  {
    assert Encode(0x3042) == [0xE3, 0x81, 0x82];
    assert Ascii("." + WordOf(0)) == Pad(0x2E, 1) + Ascii(WordOf(0));
  }

  /** The text passes the gates. */
  lemma {:induction false} TextPasses(tail: nat)
    requires tail >= 2036
    ensures var h := Text(tail); WindowWorthwhile(|h|, 8) && !TailBoundary(h) && SparseEnough(h, 0)
  {
    hide Text;
    var h := Text(tail);
    TextIsTrap(tail);
    forall from: nat, to: nat ensures SparseSample(h, from, to) {
      FewHigh(h, from, to);
    }
  }

  lemma {:induction false} FewHigh(h: Bytes, from: nat, to: nat)
    requires |h| >= 3 && (forall q :: 0 <= q < 3 ==> h[q] != 0) && forall q :: 3 <= q < |h| ==> 0 < h[q] < 0x80
    ensures SparseSample(h, from, to)
  {
    assert HighIn(h, from, to) <= {0, 1, 2};
    Fold.SubsetSize(HighIn(h, from, to), {0, 1, 2});
  }

  // ----- the search

  /** The matcher for the patterns sends such texts to the partition. */
  lemma {:induction false} MatcherReaches(x: Matcher)
    requires x.Valid() && !x.plan.mode.exact && x.plan.patterns == Patterns() && Ordinary(x.plan.mode.fold)
    ensures MissPlan(x.plan) && x.PartitionReached()
  {
    hide SearchPlan.Valid, SearchPlan.NoSpareToken, SearchPlan.NoSpareWord, SearchPlan.Attained, Ordinary, SpecialRoot, OpaqueContinuation,
         AsciiKept, Held, AllRootsFit, Conservative, ScreensAscii, Armed, Fold.FoldsAscii;
    assert x.Compiled();
    PlanPasses(x.plan);
    FourKept(x.plan, x.asciiTriples);
    NoFilters(x.plan, x.filters);
    if x.raw.Some? {
      NotArmed(x.plan, x.raw.value.filter);
      assert false;
    }
  }

  /** The partition misses the first pattern in the text: its window ends after "abc0wxy".
      The text passes the gates on texts, and the matcher's answer is the partition's. */
  lemma {:induction false} PartitionMisses(x: Matcher, policy: Policy, tail: nat)
    requires x.Valid() && !x.plan.mode.exact && x.plan.patterns == Patterns() && Ordinary(x.plan.mode.fold)
    requires tail >= 2036 && policy.admits(Text(tail), ByPartition) && policy.admitRun(Text(tail))(0)
    ensures x.PartitionUsable() && x.PartitionReached() && x.Partitions(policy, Text(tail))
    ensures var h, p := Text(tail), x.plan;
            && p.mode.Valid() && WindowWorthwhile(|h|, p.maxBytes) && !TailBoundary(h) && NextExceptional(h, 0) == 0 && SparseEnough(h, 0)
            && FindFrom(p.mode, h, p.Ps()) == Some(Hit(0, 4)) && x.Answered(policy, h) != Some(Hit(0, 4))
  {
    hide FindFrom, Partitioned, Shadows, Spare, Spelt, Text, Trap, TrapStart, Ascii, Ordinary, SearchPlan.Valid, SearchPlan.NoSpareToken,
         SearchPlan.NoSpareWord, SearchPlan.Attained, SparseEnough, TailBoundary, Matcher.FoldValid, Spelling;
    var p, h := x.plan, Text(tail);
    MatcherReaches(x);
    PlanPasses(p);
    PlanSpelt(p);
    NonEmptyPatterns(p.Ps());
    Shadowed(p.mode, p.Ps());
    TextIsTrap(tail);
    TextPasses(tail);
    ShadowedIsWrong(p.mode, p.Ps(), 8, policy.admitRun(h), 0, 1, 0, Ascii(WordOf(0)), 0x2E, 0x3042, tail);
  }

  lemma {:induction false} NonEmptyPatterns(ps: seq<Pattern>)
    requires Spelt(ps)
    ensures |ps| == 22 && forall q :: q in ps ==> q != []
  {
    forall i: nat | i < 22 ensures ps[i] != [] {
      assert i < 5 ==> IsWord(ps[i], WordOf(i));
    }
  }
}
