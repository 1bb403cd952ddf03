/** One pattern with a stretch of ASCII units that fold only within ASCII, behind nothing
    but ASCII. The stretch is probed at three places, or at two or one; behind units of
    changing width, the start of a candidate is recovered by decoding backwards from the
    stretch. What follows the stretch may be anything: it is confirmed by tokens. */
module FixedAnchor {
  import opened Utf8
  import opened Spec
  import opened Greedy
  import opened Answers
  import opened Lexer
  import opened AsciiSkip
  import opened AsciiOnly
  import opened Displacements
  import opened Plan
  import opened Search
  import opened Singles
  import Fold
  import TripleFilters

  // ----- decoding backwards

  /** The length of the well-formed unit that ends at `w`, or 0 when there is none. */
  method LastForm(h: Bytes, w: nat) returns (k: nat)
    requires 0 < w <= |h|
    ensures k <= w && (k > 0 ==> FormLen(h, w - k) == k)
    ensures forall e: nat :: e < w && FormLen(h, e) == w - e ==> k == w - e
  {
    if IsAscii(h[w - 1]) {
      AsciiEnds(h, w);
      return 1;
    }
    var lim: int := if w < 4 then 0 else w - 4;
    var start: int := w as int - 2;
    while start >= lim && IsContinuation(h[start])
      invariant lim - 1 <= start < w && forall x :: start < x < w - 1 ==> IsContinuation(h[x])
    {
      start := start - 1;
    }
    var from: nat := if start < 0 then 0 else start;
    forall e: nat | e < w && FormLen(h, e) == w - e ensures e == from {
      HighUnit(h, e, w);
    }
    CutForm(h, from, w);
    k := if FormLen(h[..w], from) == w - from then w - from else 0;
  }

  /** Below an ASCII byte's end stands that byte alone. */
  lemma {:induction false} AsciiEnds(h: Bytes, w: nat)
    requires 0 < w <= |h| && IsAscii(h[w - 1])
    ensures forall e: nat :: e < w && FormLen(h, e) == w - e ==> e == w - 1
  {
  }

  /** A unit that ends with a high byte has a lead byte and continuation bytes only. */
  lemma {:induction false} HighUnit(h: Bytes, e: nat, w: nat)
    requires e < w <= |h| && FormLen(h, e) == w - e && !IsAscii(h[w - 1])
    ensures e + 2 <= w <= e + 4 && !IsContinuation(h[e]) && forall x :: e < x < w ==> IsContinuation(h[x])
  {
  }

  /** Cutting behind a unit does not change it. */
  lemma {:induction false} CutForm(h: Bytes, e: nat, w: nat)
    requires e < w <= |h|
    ensures FormLen(h[..w], e) == w - e <==> FormLen(h, e) == w - e
  {
  }

  /** From `q`, `n` well-formed units lead exactly to `w`. */
  predicate Leads(h: Bytes, q: nat, n: nat, w: nat)
    decreases n
  {
    if n == 0 then q == w
    else q < w <= |h| && FormLen(h, q) > 0 && Leads(h, q + FormLen(h, q), n - 1, w)
  }

  lemma {:induction false} LeadsForward(h: Bytes, q: nat, n: nat, w: nat)
    requires Leads(h, q, n, w)
    ensures q + n <= w
    decreases n
  {
    if n > 0 {
      LeadsForward(h, q + FormLen(h, q), n - 1, w);
    }
  }

  /** The last of the units that lead to `w`. */
  lemma {:induction false} LeadsLast(h: Bytes, q: nat, n: nat, w: nat) returns (e: nat)
    requires n > 0 && Leads(h, q, n, w) && w <= |h|
    ensures e < w && Leads(h, q, n - 1, e) && FormLen(h, e) == w - e
    decreases n
  {
    if n == 1 {
      e := q;
    } else {
      e := LeadsLast(h, q + FormLen(h, q), n - 1, w);
      LeadsForward(h, q + FormLen(h, q), n - 2, e);
    }
  }

  lemma {:induction false} LeadsBack(h: Bytes, e: nat, n: nat, mid: nat, w: nat)
    requires e < mid <= w <= |h| && FormLen(h, e) == mid - e && Leads(h, mid, n, w)
    ensures Leads(h, e, n + 1, w)
  {
  }

  /** Walk back `units` well-formed units from `window`: the only place they can start. */
  method RecoverASCIIInteriorStart(h: Bytes, window: nat, units: nat) returns (start: Option<nat>)
    requires window <= |h|
    ensures start.Some? ==> Leads(h, start.value, units, window) && start.value <= window
    ensures forall q: nat :: Leads(h, q, units, window) ==> start == Some(q)
  {
    var at: nat, left: nat := window, units;
    while left > 0
      invariant at <= window && left <= units && Leads(h, at, units - left, window)
      invariant forall q: nat :: Leads(h, q, units, window) ==> Leads(h, q, left, at)
    {
      if at == 0 {
        forall q: nat | Leads(h, q, units, window) ensures false {
          LeadsForward(h, q, left, at);
        }
        return None;
      }
      var size := LastForm(h, at);
      forall q: nat | Leads(h, q, units, window) ensures size > 0 && Leads(h, q, left - 1, at - size) {
        var e := LeadsLast(h, q, left, at);
      }
      if size == 0 {
        return None;
      }
      LeadsBack(h, at - size, units - left, at, window);
      at, left := at - size, left - 1;
    }
    return Some(at);
  }

  // ----- the window

  /** A folded plan for the single pattern `needle`. */
  ghost predicate Alone(p: SearchPlan, needle: Bytes)
    reads p
  {
    p.Valid() && p.patterns == [needle] && Folding(p.mode)
  }

  ghost predicate Folding(m: Mode) {
    m.Valid() && !m.exact && Fold.FoldsAscii(m.fold)
  }

  /** Probe positions of the needle, in order. */
  datatype Probe = Probe(first: nat, second: nat, third: nat)

  /** The bytes up to the last probe are ASCII, so that they are units; from the first
      probe on every one folds only within ASCII. */
  ghost predicate Window(m: Mode, needle: Bytes, probe: Probe)
    requires m.Valid()
  {
    && probe.first <= probe.second <= probe.third < |needle| && AsciiRange(needle, 0, probe.third + 1)
    && forall o :: probe.first <= o <= probe.third ==> Fold.Widest(m.fold, needle[o]) == 1
  }

  /** The whole needle folds only within ASCII, so that all its spellings are as wide. */
  ghost predicate FixedNeedle(m: Mode, needle: Bytes)
    requires m.Valid()
  {
    AsciiNeedle(needle) && Window(m, needle, Probe(0, 0, |needle| - 1))
  }

  predicate ProbeMatches(h: Bytes, w: nat, needle: Bytes, probe: Probe)
    requires probe.first <= probe.second <= probe.third < |needle|
  {
    && w + (probe.third - probe.first) < |h|
    && ByteMeets(needle[probe.first], h[w])
    && ByteMeets(needle[probe.second], h[w + (probe.second - probe.first)])
    && ByteMeets(needle[probe.third], h[w + (probe.third - probe.first)])
  }

  ghost predicate MatchHere(m: Mode, h: Bytes, needle: Bytes, q: nat)
    requires m.Valid()
  {
    q <= |h| && MatchEnd(m, h, q, Units(m, needle)).Some?
  }

  /** ASCII bytes in front are the first units. */
  lemma {:induction false} LeadingUnits(m: Mode, needle: Bytes, n: nat)
    requires !m.exact && n <= |needle| && AsciiRange(needle, 0, n)
    ensures n <= |Units(m, needle)| && Units(m, needle)[n..] == Units(m, needle, n)
    ensures forall o :: 0 <= o < n ==> Units(m, needle)[o] == Rune(needle[o])
  {
    if n > 0 {
      LeadingUnits(m, needle, n - 1);
      var a := Units(m, needle);
      assert Units(m, needle, n - 1) == [Rune(needle[n - 1])] + Units(m, needle, n);
      assert a[n - 1] == a[n - 1..][0] && a[n..] == a[n - 1..][1..];
    }
  }

  /** Where unit `o` of a match starts, the units before it lead there. */
  lemma {:induction false} UnitReached(m: Mode, h: Bytes, needle: Bytes, q: nat, o: nat) returns (e: nat)
    requires Folding(m) && MatchHere(m, h, needle, q) && o <= |needle| && AsciiRange(needle, 0, o) && o <= |Units(m, needle)|
    ensures q <= e <= |h| && Leads(h, q, o, e) && MatchEnd(m, h, q, Units(m, needle)[..o]) == Some(e)
    decreases o
  {
    hide MatchEnd, Units, FormLen, FormRune, Same;
    var a := Units(m, needle);
    LeadingUnits(m, needle, o);
    if o == 0 {
      e := q;
      MatchNothing(m, h, q, a);
    } else {
      var before := UnitReached(m, h, needle, q, o - 1);
      TripleFilters.MatchUnit(m, h, q, a, o - 1);
      assert a[..o - 1 + 1] == a[..o];
      RuneUnit(m, h, before, needle[o - 1]);
      e := before + SizeAt(m, h, before);
      LeadsAppend(h, q, o - 1, before, e);
    }
  }

  lemma {:induction false} RuneUnit(m: Mode, h: Bytes, e: nat, r: int)
    requires m.Valid() && !m.exact && e < |h| && Same(m, UnitAt(m, h, e), Rune(r))
    ensures FormLen(h, e) > 0 && SizeAt(m, h, e) == FormLen(h, e)
  {
  }

  lemma {:induction false} LeadsAppend(h: Bytes, q: nat, n: nat, w: nat, w': nat)
    requires Leads(h, q, n, w) && w < w' <= |h| && FormLen(h, w) == w' - w
    ensures Leads(h, q, n + 1, w')
    decreases n
  {
    if n > 0 {
      LeadsForward(h, q + FormLen(h, q), n - 1, w);
      LeadsAppend(h, q + FormLen(h, q), n - 1, w, w');
    }
  }

  /** Inside the window a match is one byte per unit. */
  lemma {:induction false} WindowUnit(m: Mode, h: Bytes, needle: Bytes, probe: Probe, q: nat, w: nat, o: nat)
    requires Folding(m) && Window(m, needle, probe) && MatchHere(m, h, needle, q) && probe.third < |Units(m, needle)|
    requires w <= |h| && MatchEnd(m, h, q, Units(m, needle)[..probe.first]) == Some(w)
    requires probe.first <= o <= probe.third
    ensures w + (o - probe.first) < |h| && MatchEnd(m, h, q, Units(m, needle)[..o]) == Some(w + (o - probe.first))
    ensures ByteMeets(needle[o], h[w + (o - probe.first)])
    decreases o
  {
    hide MatchEnd, Units, FormLen, FormRune, Same, ByteMeets, Fold.FoldsAscii;
    var a := Units(m, needle);
    LeadingUnits(m, needle, probe.third + 1);
    if o > probe.first {
      WindowUnit(m, h, needle, probe, q, w, o - 1);
      TripleFilters.MatchUnit(m, h, q, a, o - 1);
      assert a[..o - 1 + 1] == a[..o];
      NarrowUnit(m, h, w + (o - 1 - probe.first), needle[o - 1]);
    }
    TripleFilters.MatchUnit(m, h, q, a, o);
    NarrowUnit(m, h, w + (o - probe.first), needle[o]);
  }

  /** A unit that folds only within ASCII is matched by one byte. */
  lemma {:induction false} NarrowUnit(m: Mode, h: Bytes, e: nat, b: byte)
    requires m.Valid() && !m.exact && Fold.FoldsAscii(m.fold) && e < |h| && IsAscii(b) && Fold.Widest(m.fold, b) == 1
    requires Same(m, UnitAt(m, h, e), Rune(b))
    ensures SizeAt(m, h, e) == 1 && IsAscii(h[e]) && ByteMeets(b, h[e])
  {
    hide Fold.FoldsAscii, ByteMeets;
    var x := UnitSpells(m, h, e, b);
    Fold.WidestInOrbit(m.fold, b, x);
    assert h[e..e + 1][0] == h[e];
    ByteSame(m, b, h[e]);
  }

  /** Every match shows the window, where its leading units lead. */
  lemma {:induction false} MatchShows(m: Mode, h: Bytes, needle: Bytes, probe: Probe, q: nat) returns (w: nat)
    requires Folding(m) && Window(m, needle, probe) && MatchHere(m, h, needle, q)
    ensures q + probe.first <= w && Leads(h, q, probe.first, w) && ProbeMatches(h, w, needle, probe)
    ensures w <= |h| && probe.first <= |Units(m, needle)| && MatchEnd(m, h, q, Units(m, needle)[..probe.first]) == Some(w)
  {
    hide MatchEnd, Units, FormLen, ByteMeets, MatchHere, Fold.FoldsAscii;
    LeadingUnits(m, needle, probe.third + 1);
    w := UnitReached(m, h, needle, q, probe.first);
    LeadsForward(h, q, probe.first, w);
    WindowUnit(m, h, needle, probe, q, w, probe.first);
    WindowUnit(m, h, needle, probe, q, w, probe.second);
    WindowUnit(m, h, needle, probe, q, w, probe.third);
  }

  /** Windows of later matches come later. */
  lemma {:induction false} WindowsInOrder(m: Mode, h: Bytes, q: nat, s: nat, n: nat, wq: nat, ws: nat)
    requires !m.exact && Leads(h, q, n, wq) && Leads(h, s, n, ws) && q < s <= |h| && Reaches(m, h, q, s) && ws <= |h|
    ensures wq < ws
    decreases n
  {
    if n > 0 {
      var q1 := q + FormLen(h, q);
      LeadsForward(h, q1, n - 1, wq);
      if q1 == s {
        var e := LeadsLast(h, s, n, ws);
        LeadsUnique(h, s, n - 1, e, wq);
      } else {
        var s1 := s + FormLen(h, s);
        LeadsForward(h, s1, n - 1, ws);
        SameStep(m, h, q1, s);
        ReachesTransitive(m, h, q1, s, s1);
        WindowsInOrder(m, h, q1, s1, n - 1, wq, ws);
      }
    }
  }

  lemma {:induction false} SameStep(m: Mode, h: Bytes, q: nat, s: nat)
    requires !m.exact && s < |h| && FormLen(h, s) > 0
    ensures Reaches(m, h, s, s + FormLen(h, s))
  {
  }

  lemma {:induction false} LeadsUnique(h: Bytes, q: nat, n: nat, w: nat, w': nat)
    requires Leads(h, q, n, w) && Leads(h, q, n, w')
    ensures w == w'
    decreases n
  {
    if n > 0 {
      LeadsUnique(h, q + FormLen(h, q), n - 1, w, w');
    }
  }

  // ----- compiling the probe

  /** The ASCII stretch from `from` on that folds only within ASCII, all of it. */
  method FixedPrefix(t: Fold.Table, needle: Bytes, from: nat) returns (end: nat)
    requires Fold.Valid(t) && from <= |needle|
    ensures from <= end <= |needle| && AsciiRange(needle, from, end) && forall o :: from <= o < end ==> Fold.Widest(t, needle[o]) == 1
    ensures end < |needle| ==> !IsAscii(needle[end]) || Fold.Widest(t, needle[end]) != 1
  {
    end := from;
    while end < |needle|
      invariant from <= end <= |needle| && AsciiRange(needle, from, end) && forall o :: from <= o < end ==> Fold.Widest(t, needle[o]) == 1
    {
      if !IsAscii(needle[end]) {
        return;
      }
      var width := Fold.MaxFoldRuneWidth(t, needle[end]);
      if width != 1 {
        return;
      }
      end := end + 1;
    }
  }

  /** The longest stretch that folds only within ASCII. */
  method LongestWindow(t: Fold.Table, needle: Bytes) returns (start: nat, end: nat)
    requires Fold.Valid(t) && AsciiRange(needle, 0, |needle|)
    ensures start <= end <= |needle| && forall o :: start <= o < end ==> Fold.Widest(t, needle[o]) == 1
  {
    start, end := 0, 0;
    var at := 0;
    while at < |needle|
      invariant at <= |needle| && start <= end <= |needle| && forall o :: start <= o < end ==> Fold.Widest(t, needle[o]) == 1
    {
      var stop := FixedPrefix(t, needle, at);
      if stop == at {
        at := at + 1;
      } else {
        if stop - at > end - start {
          start, end := at, stop;
        }
        at := stop;
      }
    }
  }

  /** Probe the fixed prefix, whatever follows it; failing that, in an ASCII needle, a
      window right behind one wider unit. The needle is confirmed by tokens unless all of
      it is fixed. */
  method MakeASCIIAnchor(m: Mode, needle: Bytes) returns (probe: Option<Probe>, verify: bool)
    requires Folding(m)
    ensures probe.Some? ==> Window(m, needle, probe.value) && (verify || FixedNeedle(m, needle))
    ensures |needle| >= 3 && Window(m, needle, Probe(0, 0, 2)) ==> probe.Some?
    ensures FixedNeedle(m, needle) ==> probe.Some? && !verify
  {
    if |needle| < 3 {
      return None, true;
    }
    var prefix := FixedPrefix(m.fold, needle, 0);
    if prefix >= 3 {
      var middle: nat := prefix / 2;
      return Some(Probe(0, middle, prefix - 1)), prefix != |needle|;
    }
    if !AsciiNeedle(needle) || |needle| > 64 {
      return None, true;
    }
    var start, end := LongestWindow(m.fold, needle);
    if start != 1 || end - start < 3 {
      return None, true;
    }
    var half: nat := (end - start) / 2;
    return Some(Probe(start, start + half, end - 1)), true;
  }

  /** Enumeration probes a wholly fixed needle of four bytes or more at its first, second
      and fourth byte when the second is the rarer choice. */
  method MakeASCIIEachProbe(m: Mode, needle: Bytes, probe: Probe, verify: bool, rarer: (byte, byte) -> bool) returns (each: Probe)
    requires Folding(m) && Window(m, needle, probe) && (verify || FixedNeedle(m, needle))
    ensures Window(m, needle, each)
    ensures each == probe || (each == Probe(0, 1, 3) && !verify)
  {
    each := probe;
    if |needle| >= 4 && !verify && rarer(needle[1], needle[|needle| / 2]) {
      each := Probe(0, 1, 3);
    }
  }

  // ----- confirming

  lemma {:induction false} NeedleUnitsOf(p: SearchPlan, needle: Bytes)
    requires Alone(p, needle)
    ensures p.mode.Valid() && p.Ps() == [Units(p.mode, needle)]
  {
    hide AllRows;
    assert p.Ps() == [p.Ps()[0]];
  }

  // ----- the search

  /** No match at or after `from` shows its window before the position `at` of the scan. */
  ghost predicate Unseen(m: Mode, h: Bytes, needle: Bytes, probe: Probe, from: nat, at: nat)
    requires m.Valid()
  {
    forall q: nat, w: nat :: from <= q && MatchHere(m, h, needle, q) && Leads(h, q, probe.first, w) ==> at + probe.first <= w
  }

  lemma {:induction false} NothingUnseen(m: Mode, h: Bytes, needle: Bytes, probe: Probe, from: nat)
    requires m.Valid()
    ensures Unseen(m, h, needle, probe, from, from)
  {
    forall q: nat, w: nat | from <= q && MatchHere(m, h, needle, q) && Leads(h, q, probe.first, w) ensures from + probe.first <= w {
      LeadsForward(h, q, probe.first, w);
    }
  }

  /** No match leads to the window at this position. */
  ghost predicate NoneHere(m: Mode, h: Bytes, needle: Bytes, probe: Probe, from: nat, at: nat)
    requires m.Valid()
  {
    forall q: nat :: from <= q && MatchHere(m, h, needle, q) ==> !Leads(h, q, probe.first, at + probe.first)
  }

  lemma {:induction false} UnseenNext(m: Mode, h: Bytes, needle: Bytes, probe: Probe, from: nat, at: nat)
    requires m.Valid() && Unseen(m, h, needle, probe, from, at) && NoneHere(m, h, needle, probe, from, at)
    ensures Unseen(m, h, needle, probe, from, at + 1)
  {
    hide MatchHere, Leads;
    forall q: nat, w: nat | from <= q && MatchHere(m, h, needle, q) && Leads(h, q, probe.first, w) ensures at + 1 + probe.first <= w {
      assert w != at + probe.first;
    }
  }

  /** Without the probe there is no match. */
  lemma {:induction false} UnprobedNone(m: Mode, h: Bytes, needle: Bytes, probe: Probe, from: nat, at: nat)
    requires Folding(m) && Window(m, needle, probe) && !ProbeMatches(h, at + probe.first, needle, probe)
    ensures NoneHere(m, h, needle, probe, from, at)
  {
    hide MatchHere, Leads, ProbeMatches;
    forall q: nat | from <= q && MatchHere(m, h, needle, q) ensures !Leads(h, q, probe.first, at + probe.first) {
      var w := MatchShows(m, h, needle, probe, q);
      if Leads(h, q, probe.first, at + probe.first) {
        LeadsUnique(h, q, probe.first, w, at + probe.first);
        assert false;
      }
    }
  }

  /** The start that a window belongs to. */
  method StartOf(h: Bytes, at: nat, first: nat) returns (start: Option<nat>)
    requires at + first <= |h|
    ensures start.Some? ==> Leads(h, start.value, first, at + first) && start.value <= |h|
    ensures forall q: nat :: Leads(h, q, first, at + first) ==> start == Some(q)
  {
    if first == 0 {
      return Some(at);
    }
    start := RecoverASCIIInteriorStart(h, at + first, first);
  }

  /** Confirm a start: by tokens, or by bytes when the whole needle is fixed. */
  method AnchorMatches(p: SearchPlan, needle: Bytes, tokens: seq<nat>, verify: bool, h: Bytes, start: nat) returns (ok: bool)
    requires Alone(p, needle) && p.toks == [tokens] && (verify || FixedNeedle(p.mode, needle)) && start <= |h|
    ensures ok <==> MatchHere(p.mode, h, needle, start)
  {
    hide SearchPlan.Valid, FixedNeedle, Fold.FoldsAscii;
    NeedleUnitsOf(p, needle);
    if verify {
      ok := MatchesSingleAt(p, tokens, h, start);
    } else {
      FixedSpelled(p.mode, h, needle, start);
      ok := SpelledAt(h, start, needle);
    }
  }

  /** A needle that is fixed throughout matches where it is spelled. */
  lemma {:induction false} FixedSpelled(m: Mode, h: Bytes, needle: Bytes, q: nat)
    requires Folding(m) && FixedNeedle(m, needle)
    ensures MatchHere(m, h, needle, q) <==> SpelledAt(h, q, needle)
  {
    hide MatchEnd, ByteMeets, Units, Fold.FoldsAscii;
    if SpelledAt(h, q, needle) {
      SpellingIsAscii(h, q, needle);
      ZoneMatch(m, h, q, needle);
    }
    if MatchHere(m, h, needle, q) {
      NeedleUnits(m, needle);
      MatchNothing(m, h, q, Units(m, needle));
      MatchLongEnough(m, h, q, Units(m, needle));
      forall o | 0 <= o < |needle| ensures ByteMeets(needle[o], h[q + o]) {
        WindowUnit(m, h, needle, Probe(0, 0, |needle| - 1), q, q, o);
      }
    }
  }

  /** The probes of a wholly fixed needle stand at their own distances from its start. */
  lemma {:induction false} FixedWindow(m: Mode, h: Bytes, needle: Bytes, q: nat, o: nat)
    requires Folding(m) && FixedNeedle(m, needle) && MatchHere(m, h, needle, q) && o < |needle|
    ensures o <= |Units(m, needle)| && MatchEnd(m, h, q, Units(m, needle)[..o]) == Some(q + o) && q + |needle| <= |h|
  {
    hide MatchEnd, ByteMeets, Units, Fold.FoldsAscii;
    NeedleUnits(m, needle);
    MatchNothing(m, h, q, Units(m, needle));
    MatchLongEnough(m, h, q, Units(m, needle));
    WindowUnit(m, h, needle, Probe(0, 0, |needle| - 1), q, q, o);
  }

  /** What a probe needs to search by. */
  ghost predicate Probing(p: SearchPlan, needle: Bytes, tokens: seq<nat>, probe: Probe, verify: bool)
    reads p
  {
    Alone(p, needle) && Window(p.mode, needle, probe) && p.toks == [tokens] && (verify || FixedNeedle(p.mode, needle))
  }

  /** The next match at or after `from`. With token confirmation only the last probe
      bounds the scan, since a match may be shorter than the needle. */
  method NextAnchored(p: SearchPlan, needle: Bytes, tokens: seq<nat>, probe: Probe, verify: bool, h: Bytes, from: nat) returns (found: Option<nat>)
    requires Probing(p, needle, tokens, probe, verify) && from <= |h|
    ensures found.Some? ==> from <= found.value && MatchHere(p.mode, h, needle, found.value)
    ensures FindFrom(p.mode, h, p.Ps(), from) == if found.Some? then Some(Hit(0, found.value)) else None
  {
    hide SearchPlan.Valid, FixedNeedle, Fold.FoldsAscii, MatchHere, Leads, ProbeMatches, FindFrom, Unseen, NoneHere;
    ghost var m := p.mode;
    var limit: int := if verify then |h| - probe.third else |h| - |needle| + 1;
    var at := from;
    NothingUnseen(m, h, needle, probe, from);
    while at < limit
      invariant Unseen(m, h, needle, probe, from, at)
    {
      FitsBelow(m, needle, verify, h, at, limit, probe);
      if ProbeMatches(h, at + probe.first, needle, probe) {
        var start := StartOf(h, at, probe.first);
        if start.Some? && from <= start.value {
          var matched := AnchorMatches(p, needle, tokens, verify, h, start.value);
          if matched {
            FirstShown(p, needle, h, probe, from, at, start.value);
            return start;
          }
        }
        NoneRecovered(m, h, needle, probe, from, at, start);
      } else {
        UnprobedNone(m, h, needle, probe, from, at);
      }
      UnseenNext(m, h, needle, probe, from, at);
      at := at + 1;
    }
    NothingShown(p, needle, h, probe, verify, from, at);
    return None;
  }

  lemma {:induction false} FitsBelow(m: Mode, needle: Bytes, verify: bool, h: Bytes, at: nat, limit: int, probe: Probe)
    requires m.Valid() && Window(m, needle, probe) && at < limit && limit == if verify then |h| - probe.third else |h| - |needle| + 1
    ensures at + probe.first <= |h|
  {
  }

  lemma {:induction false} NoneRecovered(m: Mode, h: Bytes, needle: Bytes, probe: Probe, from: nat, at: nat, start: Option<nat>)
    requires m.Valid() && forall q: nat :: Leads(h, q, probe.first, at + probe.first) ==> start == Some(q)
    requires start.Some? ==> start.value < from || !MatchHere(m, h, needle, start.value)
    ensures NoneHere(m, h, needle, probe, from, at)
  {
    hide MatchHere, Leads;
    forall q: nat | from <= q && MatchHere(m, h, needle, q) ensures !Leads(h, q, probe.first, at + probe.first) {
      assert Leads(h, q, probe.first, at + probe.first) ==> start == Some(q);
    }
  }

  lemma {:induction false} MatchOfNeedle(p: SearchPlan, needle: Bytes, h: Bytes, q: nat)
    requires Alone(p, needle) && q <= |h|
    ensures BestAt(p.mode, h, q, p.Ps()) == if MatchHere(p.mode, h, needle, q) then Some(0) else None
  {
    hide AllRows, MatchEnd;
    NeedleUnitsOf(p, needle);
    if MatchHere(p.mode, h, needle, q) {
      assert MatchesAt(p.mode, h, q, p.Ps(), 0);
    }
  }

  lemma {:induction false} MatchBoundary(p: SearchPlan, needle: Bytes, h: Bytes, from: nat, q: nat)
    requires Alone(p, needle) && needle != [] && IsAscii(needle[0]) && from <= q <= |h| && MatchHere(p.mode, h, needle, q)
    ensures Reaches(p.mode, h, from, q)
  {
    hide AllRows;
    NeedleUnitsOf(p, needle);
    LeadingUnits(p.mode, needle, 1);
    RuneStart(p.mode, h, from, q, p.Ps()[0]);
  }

  /** A match before which none starts is what Find returns. */
  lemma {:induction false} FirstMatch(p: SearchPlan, needle: Bytes, h: Bytes, from: nat, start: nat)
    requires Alone(p, needle) && needle != [] && IsAscii(needle[0]) && from <= start <= |h| && MatchHere(p.mode, h, needle, start)
    requires forall q :: from <= q < start && Reaches(p.mode, h, from, q) ==> !MatchHere(p.mode, h, needle, q)
    ensures FindFrom(p.mode, h, p.Ps(), from) == Some(Hit(0, start))
  {
    hide SearchPlan.Valid, MatchHere, FindFrom, BestAt, Fold.FoldsAscii;
    MatchBoundary(p, needle, h, from, start);
    MatchOfNeedle(p, needle, h, start);
    forall q | from <= q < start && Reaches(p.mode, h, from, q) ensures BestAt(p.mode, h, q, p.Ps()) == None {
      MatchOfNeedle(p, needle, h, q);
    }
    FindIs(p.mode, h, p.Ps(), from, Hit(0, start));
  }

  lemma {:induction false} NoMatch(p: SearchPlan, needle: Bytes, h: Bytes, from: nat)
    requires Alone(p, needle) && from <= |h| && forall q :: from <= q <= |h| ==> !MatchHere(p.mode, h, needle, q)
    ensures FindFrom(p.mode, h, p.Ps(), from) == None
  {
    hide SearchPlan.Valid, MatchHere, FindFrom, BestAt, Fold.FoldsAscii;
    forall q | from <= q <= |h| ensures BestAt(p.mode, h, q, p.Ps()) == None {
      MatchOfNeedle(p, needle, h, q);
    }
    FindIsNone(p.mode, h, p.Ps(), from);
  }

  /** The first window that belongs to a match belongs to the first match. */
  lemma {:induction false} FirstShown(p: SearchPlan, needle: Bytes, h: Bytes, probe: Probe, from: nat, at: nat, start: nat)
    requires Alone(p, needle) && Window(p.mode, needle, probe) && from <= start <= |h| && MatchHere(p.mode, h, needle, start)
    requires Unseen(p.mode, h, needle, probe, from, at) && Leads(h, start, probe.first, at + probe.first) && at + probe.first <= |h|
    ensures FindFrom(p.mode, h, p.Ps(), from) == Some(Hit(0, start))
  {
    hide SearchPlan.Valid, MatchEnd, FindFrom, Leads, ProbeMatches, Units, BestAt, Fold.FoldsAscii;
    var m := p.mode;
    MatchBoundary(p, needle, h, from, start);
    forall q | from <= q < start && Reaches(m, h, from, q) ensures !MatchHere(m, h, needle, q) {
      if MatchHere(m, h, needle, q) {
        var w := MatchShows(m, h, needle, probe, q);
        ReachesThrough(m, h, from, q, start);
        WindowsInOrder(m, h, q, start, probe.first, w, at + probe.first);
        assert false;
      }
    }
    FirstMatch(p, needle, h, from, start);
  }

  /** Beyond the limit no window fits. */
  lemma {:induction false} NothingShown(p: SearchPlan, needle: Bytes, h: Bytes, probe: Probe, verify: bool, from: nat, at: nat)
    requires Alone(p, needle) && Window(p.mode, needle, probe) && (verify || FixedNeedle(p.mode, needle)) && from <= |h|
    requires Unseen(p.mode, h, needle, probe, from, at) && at >= if verify then |h| - probe.third else |h| - |needle| + 1
    ensures FindFrom(p.mode, h, p.Ps(), from) == None
  {
    hide SearchPlan.Valid, MatchEnd, FindFrom, Leads, Units, BestAt, ByteMeets, Fold.FoldsAscii;
    var m := p.mode;
    forall q | from <= q <= |h| ensures !MatchHere(m, h, needle, q) {
      if MatchHere(m, h, needle, q) {
        var w := MatchShows(m, h, needle, probe, q);
        if !verify {
          FixedWindow(m, h, needle, q, probe.first);
        }
        assert false;
      }
    }
    NoMatch(p, needle, h, from);
  }

  /** Find by the probe. */
  method FindASCIIAnchor(p: SearchPlan, needle: Bytes, tokens: seq<nat>, probe: Probe, verify: bool, h: Bytes) returns (hit: Option<Hit>)
    requires Probing(p, needle, tokens, probe, verify)
    ensures hit == FindFrom(p.mode, h, p.Ps())
  {
    hide FindFrom, Probing;
    var found := NextAnchored(p, needle, tokens, probe, verify, h, 0);
    hit := if found.Some? then Some(Hit(0, found.value)) else None;
  }

  // ----- one or two probes

  /** A fixed prefix needs no decoding: its byte stands at its own distance. */
  lemma {:induction false} PrefixByte(m: Mode, h: Bytes, needle: Bytes, o: nat, q: nat)
    requires Folding(m) && o < |needle| && Window(m, needle, Probe(0, 0, o)) && MatchHere(m, h, needle, q)
    ensures q + o < |h| && ByteMeets(needle[o], h[q + o])
  {
    hide MatchEnd, ByteMeets, Units, Fold.FoldsAscii;
    LeadingUnits(m, needle, o + 1);
    MatchNothing(m, h, q, Units(m, needle));
    WindowUnit(m, h, needle, Probe(0, 0, o), q, q, o);
  }

  /** Find by one rare byte of the fixed prefix; the probe rejects cheaply before a wholly
      fixed needle is compared. */
  method FindASCIIByteAnchor(p: SearchPlan, needle: Bytes, tokens: seq<nat>, probe: Probe, verify: bool, h: Bytes, anchorAt: nat) returns (hit: Option<Hit>)
    requires Probing(p, needle, tokens, probe, verify) && probe.first == 0
    requires anchorAt < |needle| && Window(p.mode, needle, Probe(0, 0, anchorAt))
    ensures hit == FindFrom(p.mode, h, p.Ps())
  {
    hide SearchPlan.Valid, FixedNeedle, Fold.FoldsAscii, MatchHere, ProbeMatches, FindFrom, ByteMeets;
    ghost var m := p.mode;
    var at := 0;
    while at < |h|
      invariant at <= |h| && forall q :: 0 <= q && q + anchorAt < at ==> !MatchHere(m, h, needle, q)
    {
      if ByteMeets(needle[anchorAt], h[at]) {
        if at >= anchorAt {
          var start: nat := at - anchorAt;
          if !verify && start + |needle| <= |h| && !ProbeMatches(h, start, needle, probe) {
            ProbeRejects(m, h, needle, probe, start);
          } else {
            var matched := AnchorMatches(p, needle, tokens, verify, h, start);
            if matched {
              AsciiFront(m, needle, anchorAt);
              FirstMatch(p, needle, h, 0, start);
              return Some(Hit(0, start));
            }
          }
        }
      } else if at >= anchorAt {
        NoByteNoMatch(m, h, needle, anchorAt, at - anchorAt);
      }
      at := at + 1;
    }
    forall q | 0 <= q <= |h| ensures !MatchHere(m, h, needle, q) {
      BeyondNoMatch(m, h, needle, anchorAt, q);
    }
    NoMatch(p, needle, h, 0);
    return None;
  }

  lemma {:induction false} AsciiFront(m: Mode, needle: Bytes, o: nat)
    requires m.Valid() && o < |needle| && Window(m, needle, Probe(0, 0, o))
    ensures IsAscii(needle[0])
  {
  }

  lemma {:induction false} ProbeRejects(m: Mode, h: Bytes, needle: Bytes, probe: Probe, q: nat)
    requires Folding(m) && Window(m, needle, probe) && probe.first == 0 && !ProbeMatches(h, q, needle, probe)
    ensures !MatchHere(m, h, needle, q)
  {
    hide ProbeMatches, MatchHere, Fold.FoldsAscii, Units, MatchEnd;
    if MatchHere(m, h, needle, q) {
      var w := MatchShows(m, h, needle, probe, q);
      assert false;
    }
  }

  lemma {:induction false} NoByteNoMatch(m: Mode, h: Bytes, needle: Bytes, o: nat, q: nat)
    requires Folding(m) && o < |needle| && Window(m, needle, Probe(0, 0, o)) && q + o < |h| && !ByteMeets(needle[o], h[q + o])
    ensures !MatchHere(m, h, needle, q)
  {
    hide MatchHere, Fold.FoldsAscii, Window;
    if MatchHere(m, h, needle, q) {
      PrefixByte(m, h, needle, o, q);
      assert false;
    }
  }

  lemma {:induction false} BeyondNoMatch(m: Mode, h: Bytes, needle: Bytes, o: nat, q: nat)
    requires Folding(m) && o < |needle| && Window(m, needle, Probe(0, 0, o))
    ensures MatchHere(m, h, needle, q) ==> q + o < |h|
  {
    hide MatchHere, Fold.FoldsAscii, Window;
    if MatchHere(m, h, needle, q) {
      PrefixByte(m, h, needle, o, q);
    }
  }

  /** Find a wholly fixed needle by its first byte and one other. */
  method FindASCIIPairAnchor(p: SearchPlan, needle: Bytes, h: Bytes, secondAt: nat) returns (hit: Option<Hit>)
    requires Alone(p, needle) && FixedNeedle(p.mode, needle) && secondAt < |needle|
    ensures hit == FindFrom(p.mode, h, p.Ps())
  {
    hide SearchPlan.Valid, Fold.FoldsAscii, MatchHere, FindFrom, ByteMeets, Units;
    ghost var m := p.mode;
    if SpelledAt(h, 0, needle) {
      FixedSpelled(m, h, needle, 0);
      FirstMatch(p, needle, h, 0, 0);
      return Some(Hit(0, 0));
    }
    var at := 0;
    while at < |h| - |needle| + 1
      invariant forall q :: 0 <= q < at ==> !MatchHere(m, h, needle, q)
    {
      FixedSpelled(m, h, needle, at);
      if ByteMeets(needle[0], h[at]) && ByteMeets(needle[secondAt], h[at + secondAt]) && SpelledAt(h, at, needle) {
        FirstMatch(p, needle, h, 0, at);
        return Some(Hit(0, at));
      }
      NotSpelled(h, at, needle, secondAt);
      at := at + 1;
    }
    forall q | 0 <= q <= |h| ensures !MatchHere(m, h, needle, q) {
      FixedSpelled(m, h, needle, q);
    }
    NoMatch(p, needle, h, 0);
    return None;
  }

  lemma {:induction false} NotSpelled(h: Bytes, q: nat, needle: Bytes, o: nat)
    requires o < |needle| && q + |needle| <= |h|
    requires !(ByteMeets(needle[0], h[q]) && ByteMeets(needle[o], h[q + o]) && SpelledAt(h, q, needle))
    ensures !SpelledAt(h, q, needle)
  {
    hide ByteMeets;
    assert h[q + 0] == h[q];
  }

  // ----- enumeration

  /** The width of a confirmed match: that of a fixed needle or of an ASCII spelling, or
      measured over the units of the pattern. */
  method AnchoredWidth(p: SearchPlan, needle: Bytes, verify: bool, h: Bytes, start: nat) returns (width: nat)
    requires Alone(p, needle) && needle != [] && p.Attained(1) && (verify || FixedNeedle(p.mode, needle))
    requires start <= |h| && MatchHere(p.mode, h, needle, start)
    ensures MatchEnd(p.mode, h, start, p.Ps()[0]) == Some(start + width)
  {
    hide SearchPlan.Valid, MatchEnd, Units, Fold.FoldsAscii;
    NeedleUnitsOf(p, needle);
    if !verify || (AsciiNeedle(needle) && SpelledAt(h, start, needle)) {
      if !verify {
        FixedSpelled(p.mode, h, needle, start);
      }
      SpellingIsAscii(h, start, needle);
      ZoneMatch(p.mode, h, start, needle);
      return |needle|;
    }
    LongestIsOnly(p, needle);
    MatchIsWalk(p.mode, h, start, p.Ps()[0]);
    var end := MatcherMatchEnd(p.mode, h, start, p.maxUnits);
    width := end - start;
  }

  lemma {:induction false} LongestIsOnly(p: SearchPlan, needle: Bytes)
    requires Alone(p, needle) && needle != [] && p.Attained(1)
    ensures p.maxUnits == |p.Ps()[0]| > 0
  {
    hide AllRows;
    NeedleUnitsOf(p, needle);
    SomeUnits(p.mode, needle);
  }

  /** Enumerate with the probe and its cursor kept across emissions. */
  method EachASCIIProbe(p: SearchPlan, needle: Bytes, tokens: seq<nat>, probe: Probe, verify: bool, h: Bytes, goOn: seq<Emit> -> bool)
    returns (emitted: seq<Emit>, done: bool)
    requires Probing(p, needle, tokens, probe, verify) && p.Attained(1)
    ensures Enumerates(EachFrom(p.mode, h, p.Ps(), 0), goOn, emitted, done)
  {
    hide SearchPlan.Valid, Fold.FoldsAscii, FixedNeedle, FindFrom, EachFrom, Enumerates, Emitting, MatchHere, MatchEnd;
    ghost var m, ps := p.mode, p.Ps();
    ghost var all := EachFrom(m, h, ps, 0);
    var from: nat := 0;
    emitted := [];
    EmitNothing(all, goOn);
    while true
      invariant from <= |h| && Emitting(all, goOn, emitted, EachFrom(m, h, ps, from))
      decreases |h| - from
    {
      var found := NextAnchored(p, needle, tokens, probe, verify, h, from);
      if found.None? {
        EachNone(m, h, ps, from);
        EmitDone(all, goOn, emitted);
        return emitted, true;
      }
      StartInside(m, h, ps, from);
      var width := AnchoredWidth(p, needle, verify, h, found.value);
      var e := Emit(0, found.value, width);
      NextEach(p, needle, h, from, e);
      EmitMore(all, goOn, emitted, e, EachFrom(m, h, ps, found.value + width));
      emitted := emitted + [e];
      if !goOn(emitted) {
        return emitted, false;
      }
      from := found.value + width;
    }
  }

  lemma {:induction false} StartInside(m: Mode, h: Bytes, ps: seq<Pattern>, from: nat)
    requires m.Valid() && from <= |h| && FindFrom(m, h, ps, from).Some?
    ensures FindFrom(m, h, ps, from).value.start <= |h|
  {
  }

  lemma {:induction false} NextEach(p: SearchPlan, needle: Bytes, h: Bytes, from: nat, e: Emit)
    requires Alone(p, needle) && needle != [] && from <= |h| && e.pattern == 0 && e.start <= |h| && from <= e.start
    requires FindFrom(p.mode, h, p.Ps(), from) == Some(Hit(0, e.start)) && MatchEnd(p.mode, h, e.start, p.Ps()[0]) == Some(e.start + e.width)
    ensures from < e.start + e.width <= |h|
    ensures EachFrom(p.mode, h, p.Ps(), from) == [e] + EachFrom(p.mode, h, p.Ps(), e.start + e.width)
  {
    hide SearchPlan.Valid, FindFrom, EachFrom, Units;
    NeedleUnitsOf(p, needle);
    SomeUnits(p.mode, needle);
    NonemptyWidth(p.mode, h, e.start, p.Ps()[0]);
    EachSome(p.mode, h, p.Ps(), from, e);
  }

  lemma {:induction false} NonemptyWidth(m: Mode, h: Bytes, q: nat, a: Pattern)
    requires m.Valid() && q <= |h| && MatchEnd(m, h, q, a).Some? && |a| > 0
    ensures MatchEnd(m, h, q, a).value > q
  {
  }
}
