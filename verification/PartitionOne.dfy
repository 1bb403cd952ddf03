/** The partitioned search for one ASCII pattern. Here the probe that searches a clean
    gap also finds the next high byte, a hit in the last gap closes the group, and a
    window may end inside a rune. The answer is always the whole haystack's answer. */
module PartitionOne {
  import opened Utf8
  import opened Spec
  import opened Answers
  import opened Cuts
  import opened Plan
  import opened Decoded
  import opened Partition
  import opened AsciiOnly
  import Fold

  /** A folded plan for the single ASCII pattern `needle`. */
  ghost predicate Single(p: SearchPlan, needle: Bytes)
    reads p
  {
    p.Valid() && p.patterns == [needle] && LoneMode(p.mode, needle)
  }

  lemma {:induction false} SinglePatterns(p: SearchPlan, h: Bytes, needle: Bytes)
    requires Single(p, needle)
    ensures p.Ps() == Lone(p.mode, needle) && RunesOnly(p.Ps()) && Fold.FoldsAsciiLetters(p.mode.fold)
    ensures Bounded(p.mode, h, p.Ps(), p.maxBytes) && |needle| <= p.maxBytes
  {
    hide AllRows;
    NeedleUnits(p.mode, needle);
    Fold.AsciiLettersFold(p.mode.fold);
    PlanBounded(p, h);
    SpellingOccurs(p.mode, needle, 0, needle);
    PlanBounded(p, needle);
  }

  /** Search any slice of the haystack. */
  method SearchAnySlice(p: SearchPlan, h: Bytes, needle: Bytes, a: nat, c: nat) returns (r: Option<Hit>)
    requires Single(p, needle) && a <= c <= |h|
    ensures Answer(p.mode, h, Lone(p.mode, needle), a, c, r)
  {
    hide FindFrom, Occ, End, RunesOnly, AllRows;
    SinglePatterns(p, h, needle);
    var hit := FindUnfilteredDecodedLegacy(p, h[a..c]);
    SliceAnswerAnywhere(p.mode, h, p.Ps(), a, c);
    r := Shift(hit, a);
  }

  /** A stretch that is ASCII up to a high byte and spells nothing: nothing starts in it
      early enough to end in it. */
  lemma {:induction false} QuietGap(m: Mode, h: Bytes, needle: Bytes, maxBytes: nat, a: nat, x: nat)
    requires LoneMode(m, needle) && AsciiRange(h, a, x) && NoSpelling(h, needle, a, x)
    requires NothingBefore(m, h, Lone(m, needle), a) && Bounded(m, h, Lone(m, needle), maxBytes) && 1 <= maxBytes
    ensures NothingBefore(m, h, Lone(m, needle), WindowStart(x, maxBytes))
  {
    hide Occ, End, SpelledAt, Lone;
    forall q: nat, i: nat | Occ(m, h, Lone(m, needle), q, i) ensures WindowStart(x, maxBytes) <= q {
      if q + maxBytes < x {
        OccInRange(m, h, q, i, needle, a, x);
      }
    }
  }

  /** What is known of the haystack after the last run of a closed group: the first
      spelling there, or none at all. */
  ghost predicate Tail(h: Bytes, needle: Bytes, last: nat, pending: Option<nat>) {
    match pending
    case Some(q) => last <= q && SpelledAt(h, q, needle) && NoSpelling(h, needle, last, q) && AsciiRange(h, last, q + |needle|)
    case None =>
      && last <= |h| && (|h| - last + 1 < |needle| || AsciiRange(h, last, |h|))
      && forall q: nat :: last <= q && q + |needle| <= |h| ==> !SpelledAt(h, q, needle)
  }

  /** No occurrence after the last run starts before the first spelling there. */
  lemma {:induction false} TailFirst(m: Mode, h: Bytes, needle: Bytes, last: nat, pending: Option<nat>, q: nat, i: nat)
    requires LoneMode(m, needle) && Tail(h, needle, last, pending) && last <= q && Occ(m, h, Lone(m, needle), q, i)
    ensures i == 0 && pending.Some? && pending.value <= q
  {
    hide SpelledAt, Occ, End;
    assert End(m, h, Lone(m, needle), q, i) <= |h|;
    OccInRange(m, h, q, i, needle, q, q);
    if pending.Some? {
      if q < pending.value {
        OccInRange(m, h, q, i, needle, last, pending.value + |needle|);
      }
    } else if |h| - last + 1 >= |needle| {
      OccInRange(m, h, q, i, needle, last, |h|);
    }
  }

  function AsHit(q: Option<nat>): Option<Hit> {
    match q
    case None => None
    case Some(start) => Some(Hit(0, start))
  }

  /** The window sees everything that starts before the end of the last run; the probe
      has seen the rest. */
  lemma {:induction false} ClosedAnswer(m: Mode, h: Bytes, needle: Bytes, maxBytes: nat, windowStart: nat, last: nat, pending: Option<nat>, w: Option<Hit>)
    requires LoneMode(m, needle) && Bounded(m, h, Lone(m, needle), maxBytes) && last <= |h|
    requires NothingBefore(m, h, Lone(m, needle), windowStart) && windowStart <= last
    requires Answer(m, h, Lone(m, needle), windowStart, WindowEnd(h, last, maxBytes), w)
    requires Tail(h, needle, last, pending)
    ensures Answer(m, h, Lone(m, needle), 0, |h|, Better(AsHit(pending), w))
  {
    hide SpelledAt, Occ, End, Lone;
    var ps := Lone(m, needle);
    if pending.Some? {
      SpellingOccurs(m, h, pending.value, needle);
    }
    forall q: nat, i: nat | Occ(m, h, ps, q, i)
      ensures Better(AsHit(pending), w).Some? && Before(Better(AsHit(pending), w).value, q, i)
    {
      if last <= q {
        TailFirst(m, h, needle, last, pending, q, i);
      }
    }
  }

  /** Before another group, what the window finds starts before the end of the last run. */
  lemma {:induction false} OpenAnswer(m: Mode, h: Bytes, needle: Bytes, maxBytes: nat, windowStart: nat, last: nat, next: nat, w: Option<Hit>)
    requires LoneMode(m, needle) && Bounded(m, h, Lone(m, needle), maxBytes) && 1 <= maxBytes
    requires NothingBefore(m, h, Lone(m, needle), windowStart)
    requires Answer(m, h, Lone(m, needle), windowStart, WindowEnd(h, last, maxBytes), w)
    requires last <= next < |h| && AsciiRange(h, last, next) && NoSpelling(h, needle, last, next) && Apart(h, maxBytes, last, next)
    ensures w.Some? ==> Answer(m, h, Lone(m, needle), 0, |h|, w)
    ensures w == None ==> NothingBefore(m, h, Lone(m, needle), WindowStart(next, maxBytes))
  {
    hide SpelledAt, Occ, End, Lone;
    var ps := Lone(m, needle);
    if w.Some? {
      if last <= w.value.start {
        OccInRange(m, h, w.value.start, w.value.pattern, needle, last, next);
      }
    } else {
      EmptyWindow(m, h, ps, maxBytes, windowStart, last);
      QuietGap(m, h, needle, maxBytes, last, next);
    }
  }

  /** The region before the first run of a group holds nothing the window does not see. */
  method FindASCIIOnlyRegion(p: SearchPlan, h: Bytes, needle: Bytes, probe: seq<nat>, start: nat, end: nat) returns (r: Option<Hit>)
    requires Single(p, needle) && AsciiRange(h, start, end) && forall k :: 0 <= k < |probe| ==> probe[k] < |needle|
    ensures Answer(p.mode, h, Lone(p.mode, needle), start, end, r)
  {
    hide SpelledAt, Occ, End, Lone, AllRows;
    var hit, high := FindASCIIOnlyAnchorWithHigh(h, start, end, needle, probe);
    r := AsHit(hit);
    ghost var m, ps := p.mode, Lone(p.mode, needle);
    if hit.Some? {
      SpellingOccurs(m, h, hit.value, needle);
    }
    forall q: nat, i: nat | start <= q && Occ(m, h, ps, q, i) && End(m, h, ps, q, i) <= end
      ensures r.Some? && Before(r.value, q, i)
    {
      OccInRange(m, h, q, i, needle, start, end);
    }
  }

  // ----- the coordinator

  datatype Closing = Rejected | Closed(windowEnd: nat, ghost last: nat, pending: Option<nat>) | Open(windowEnd: nat, ghost last: nat, next: nat)

  ghost predicate Grouped(h: Bytes, needle: Bytes, maxBytes: nat, spanEnd: nat, g: Closing) {
    match g
    case Rejected => true
    case Closed(windowEnd, last, pending) =>
      spanEnd <= last <= |h| && windowEnd == WindowEnd(h, last, maxBytes) && Tail(h, needle, last, pending)
    case Open(windowEnd, last, next) =>
      && spanEnd <= last <= next < |h| && windowEnd == WindowEnd(h, last, maxBytes) && !IsAscii(h[next])
      && AsciiRange(h, last, next) && NoSpelling(h, needle, last, next) && Apart(h, maxBytes, last, next)
  }

  /** Coalesce runs whose widened windows touch, searching each gap on the way. */
  method GroupOne(h: Bytes, needle: Bytes, probe: seq<nat>, maxBytes: nat, admit: nat -> bool, spanStart: nat, spanEnd: nat) returns (g: Closing)
    requires spanStart <= spanEnd <= |h| && AsciiNeedle(needle) && |needle| <= maxBytes && forall k :: 0 <= k < |probe| ==> probe[k] < |needle|
    ensures Grouped(h, needle, maxBytes, spanEnd, g)
  {
    hide SpelledAt;
    var last, windowEnd := spanEnd, WindowEnd(h, spanEnd, maxBytes);
    while last < |h|
      invariant spanEnd <= last <= |h| && windowEnd == WindowEnd(h, last, maxBytes)
      decreases |h| - last
    {
      var hit, high := FindASCIIOnlyAnchorWithHigh(h, last, |h|, needle, probe);
      if high.None? {
        return Closed(windowEnd, last, hit);
      }
      var at := high.value;
      var nextSpanEnd := RunEnd(h, at);
      var nextWindowStart, nextWindowEnd := WindowStart(at, maxBytes), WindowEnd(h, nextSpanEnd, maxBytes);
      if nextWindowStart > windowEnd && at - spanStart > LOOKAHEAD {
        return Open(windowEnd, last, at);
      }
      if !admit(at) {
        return Closing.Rejected;
      }
      if nextWindowStart > windowEnd {
        return Open(windowEnd, last, at);
      }
      if nextWindowEnd > windowEnd {
        windowEnd := nextWindowEnd;
      }
      last := nextSpanEnd;
    }
    return Closed(windowEnd, last, None);
  }

  /** One group: what its gap, its region and its window found, put together. */
  method SearchGroupOne(p: SearchPlan, h: Bytes, needle: Bytes, probe: seq<nat>, spanStart: nat, cursor: nat, windowEnd: nat, pending: Option<nat>)
    returns (r: Option<Hit>)
    requires Single(p, needle) && cursor == WindowStart(spanStart, p.maxBytes) && AsciiRange(h, cursor, spanStart)
    requires spanStart <= windowEnd <= |h| && (forall k :: 0 <= k < |probe| ==> probe[k] < |needle|)
    requires pending.Some? ==> spanStart <= pending.value
    ensures exists w :: Answer(p.mode, h, Lone(p.mode, needle), cursor, windowEnd, w) && r == Better(AsHit(pending), w)
  {
    hide Occ, End, Lone, AllRows;
    var ascii := AsHit(pending);
    ghost var region := None;
    if cursor < spanStart {
      var found := FindASCIIOnlyRegion(p, h, needle, probe, cursor, spanStart);
      region, ascii := found, Better(found, ascii);
    }
    var window := SearchAnySlice(p, h, needle, cursor, windowEnd);
    if region.Some? {
      CandidateLoses(p.mode, h, Lone(p.mode, needle), cursor, spanStart, windowEnd, region, window);
    }
    r := Better(ascii, window);
    assert r == Better(AsHit(pending), window);
  }

  method FindPartitionedASCIIOne(p: SearchPlan, h: Bytes, needle: Bytes, probe: seq<nat>, firstHigh: nat, admit: nat -> bool) returns (hit: Option<Hit>)
    requires Single(p, needle) && forall k :: 0 <= k < |probe| ==> probe[k] < |needle|
    requires firstHigh < |h| && !IsAscii(h[firstHigh]) && AsciiRange(h, 0, firstHigh) && NoSpelling(h, needle, 0, firstHigh)
    ensures hit == FindFrom(p.mode, h, p.Ps())
  {
    hide Occ, End, Lone, SpelledAt, FindFrom, AllRows;
    ghost var m, ps := p.mode, Lone(p.mode, needle);
    SinglePatterns(p, h, needle);
    QuietGap(m, h, needle, p.maxBytes, 0, firstHigh);
    var cursor, spanStart := WindowStart(firstHigh, p.maxBytes), firstHigh;
    while true
      invariant spanStart < |h| && !IsAscii(h[spanStart]) && cursor == WindowStart(spanStart, p.maxBytes)
      invariant AsciiRange(h, cursor, spanStart) && NothingBefore(m, h, ps, cursor)
      decreases |h| - spanStart
    {
      var spanEnd := RunEnd(h, spanStart);
      var g := Closing.Rejected;
      if admit(spanStart) {
        g := GroupOne(h, needle, probe, p.maxBytes, admit, spanStart, spanEnd);
      }
      if g.Rejected? {
        hit := SearchAnySlice(p, h, needle, cursor, |h|);
        AnswerFromStart(m, h, ps, cursor, |h|, hit);
        WholeIs(m, h, ps, hit);
        return;
      }
      var pending := if g.Closed? then g.pending else None;
      hit := SearchGroupOne(p, h, needle, probe, spanStart, cursor, g.windowEnd, pending);
      ghost var w :| Answer(m, h, ps, cursor, g.windowEnd, w) && hit == Better(AsHit(pending), w);
      if g.Closed? {
        ClosedAnswer(m, h, needle, p.maxBytes, cursor, g.last, pending, w);
        WholeIs(m, h, ps, hit);
        return;
      }
      OpenAnswer(m, h, needle, p.maxBytes, cursor, g.last, g.next, w);
      if hit.Some? {
        WholeIs(m, h, ps, hit);
        return;
      }
      cursor, spanStart := WindowStart(g.next, p.maxBytes), g.next;
    }
  }

  /** The entry probe: a spelling before any high byte is the answer, as is nothing at
      all in clean input; otherwise the coordinator goes on from the high byte. */
  method FindASCIIOnlyPartitioned(p: SearchPlan, h: Bytes, needle: Bytes, probe: seq<nat>, worthwhile: bool, admit: nat -> bool)
    returns (hit: Option<Hit>, handled: bool)
    requires Single(p, needle) && forall k :: 0 <= k < |probe| ==> probe[k] < |needle|
    ensures worthwhile ==> handled
    ensures handled ==> hit == FindFrom(p.mode, h, p.Ps())
  {
    hide Occ, End, Lone, SpelledAt, FindFrom, AllRows;
    ghost var m, ps := p.mode, Lone(p.mode, needle);
    SinglePatterns(p, h, needle);
    var found, high := FindASCIIOnlyAnchorWithHigh(h, 0, |h|, needle, probe);
    if high.None? {
      hit := AsHit(found);
      EntryAnswer(m, h, needle, found);
      WholeIs(m, h, ps, hit);
      return hit, true;
    }
    if !worthwhile {
      return None, false;
    }
    hit := FindPartitionedASCIIOne(p, h, needle, probe, high.value, admit);
    handled := true;
  }

  lemma {:induction false} EntryAnswer(m: Mode, h: Bytes, needle: Bytes, found: Option<nat>)
    requires LoneMode(m, needle) && Tail(h, needle, 0, found)
    ensures Answer(m, h, Lone(m, needle), 0, |h|, AsHit(found))
  {
    hide SpelledAt, Occ, End, Lone;
    if found.Some? {
      SpellingOccurs(m, h, found.value, needle);
    }
    forall q: nat, i: nat | Occ(m, h, Lone(m, needle), q, i)
      ensures found.Some? && Before(AsHit(found).value, q, i)
    {
      TailFirst(m, h, needle, 0, found, q, i);
    }
  }
}
