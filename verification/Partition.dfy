/** The coordinator of the partitioned search: clean ASCII stretches and decoded
    windows around groups of exceptional bytes, put together. */
module Partition {
  import opened Utf8
  import opened Spec
  import opened Answers
  import opened Cuts
  import opened Plan
  import opened Decoded
  import opened AsciiSkip
  import opened TripleFilters
  import opened Filtered
  import Fold
  import Swar

  const ASCII_TRIPLE_MIN_BYTES := 64

  /** Search the slice from `a` to `c`, reporting haystack offsets. */
  method SearchSlice(p: SearchPlan, h: Bytes, a: nat, c: nat) returns (r: Option<Hit>)
    requires p.Valid() && !p.mode.exact && Fold.FoldsAsciiLetters(p.mode.fold)
    requires a <= c && SafeCut(h, c) && Reaches(p.mode, h, 0, a)
    ensures Answer(p.mode, h, p.Ps(), a, c, r)
  {
    hide FindFrom, Reaches, Occ, End;
    var hit := FindUnfilteredDecodedLegacy(p, h[a..c]);
    SliceAnswer(p.mode, h, p.Ps(), a, c);
    r := Shift(hit, a);
  }

  /** What the partitioned search demands of a plan: folded, with triples for every root
      that ASCII text can reach, and no opaque continuation bytes. */
  ghost predicate Partitionable(p: SearchPlan, ts: seq<Triple>)
    reads p
  {
    && p.Valid() && !p.mode.exact && Fold.FoldsAsciiLetters(p.mode.fold)
    && !OpaqueContinuation(p) && ScreensAscii(p, ts)
  }

  /** Search a clean stretch: with the triples when it is long, else unit by unit. */
  method FindASCIIRegion(p: SearchPlan, h: Bytes, ts: seq<Triple>, a: nat, c: nat) returns (r: Option<Hit>)
    requires Partitionable(p, ts) && a <= c && SafeCut(h, c) && Reaches(p.mode, h, 0, a) && Clean(h, a, c)
    ensures Answer(p.mode, h, p.Ps(), a, c, r)
  {
    hide FindFrom, Reaches, Occ, End, OpaqueContinuation, ScreensAscii;
    if c - a >= ASCII_TRIPLE_MIN_BYTES {
      CleanIsAscii(h, a, c);
      var hit := FindASCIITripleFilteredRange(p, h, a, c, ts);
      SliceAnswer(p.mode, h, p.Ps(), a, c);
      r := Shift(hit, a);
    } else {
      r := SearchSlice(p, h, a, c);
    }
  }

  lemma {:induction false} CleanIsAscii(h: Bytes, a: nat, c: nat)
    requires a <= c && Clean(h, a, c)
    ensures AsciiRange(h, a, c)
  {
    forall q | a <= q < c ensures IsAscii(h[q]) {
      assert !Exceptional(h[q]);
    }
  }

  /** The better of two candidates: earlier start, then lower pattern. */
  function Better(a: Option<Hit>, b: Option<Hit>): Option<Hit> {
    if a.Some? && (b.None? || a.value.start < b.value.start ||
         (a.value.start == b.value.start && a.value.pattern < b.value.pattern))
    then a else b
  }

  /** The next group starts at `spanStart`; nothing starts before `cursor`, and the
      stretch between them is clean. */
  ghost predicate GroupStart(m: Mode, h: Bytes, ps: seq<Pattern>, maxBytes: nat, cursor: nat, spanStart: nat)
    requires m.Valid()
  {
    && spanStart < |h| && Exceptional(h[spanStart])
    && cursor <= WindowStart(spanStart, maxBytes) && Clean(h, cursor, spanStart)
    && (spanStart == 0 || !Exceptional(h[spanStart - 1]))
    && Reaches(m, h, 0, cursor) && NothingBefore(m, h, ps, cursor)
  }

  /** A candidate found in the clean stretch before the group, inside its window. */
  ghost predicate Pending(m: Mode, h: Bytes, ps: seq<Pattern>, maxBytes: nat, spanStart: nat, r: Option<Hit>)
    requires m.Valid()
  {
    r.Some? ==>
      && Occ(m, h, ps, r.value.start, r.value.pattern) && End(m, h, ps, r.value.start, r.value.pattern) <= spanStart
      && WindowStart(spanStart, maxBytes) <= r.value.start
  }

  /** The first look at or after a run sees what a search that stops at the run finds
      early enough. */
  lemma {:induction false} SettledLook(m: Mode, h: Bytes, ps: seq<Pattern>, maxBytes: nat, admit: nat -> bool, spanStart: nat, r: Option<Hit>)
    requires m.Valid() && spanStart < |h| && Exceptional(h[spanStart])
    requires r.Some? && forall c :: spanStart <= c ==> Answer(m, h, ps, 0, c, r)
    ensures Partitioned(m, h, ps, maxBytes, admit, spanStart) == r
  {
    var c := Ends(h, maxBytes, admit, spanStart)[0];
    FirstEndSafe(h, maxBytes, admit, spanStart);
    LookAnswers(m, h, ps, c, r);
  }

  lemma {:induction false} FirstEndSafe(h: Bytes, maxBytes: nat, admit: nat -> bool, spanStart: nat)
    requires spanStart < |h| && Exceptional(h[spanStart])
    ensures SafeCut(h, Ends(h, maxBytes, admit, spanStart)[0])
  {
    GroupSeparated(h, maxBytes, admit, spanStart, SpanEnd(h, spanStart));
    var g := Coalesce(h, maxBytes, admit, spanStart, SpanEnd(h, spanStart));
    if g.Group? {
      WindowEndSafe(h, maxBytes, g);
    }
  }

  lemma {:induction false} WindowEndSafe(h: Bytes, maxBytes: nat, g: Group)
    requires g.Group? && Separated(h, maxBytes, g)
    ensures SafeCut(h, WindowEnd(h, g.lastHighEnd, maxBytes))
  {
    var c := WindowEnd(h, g.lastHighEnd, maxBytes);
    if c < |h| {
      assert !Exceptional(h[c]);
    }
  }

  /** Falling back to a search of everything from the cursor on. */
  lemma {:induction false} FallbackLook(m: Mode, h: Bytes, ps: seq<Pattern>, cursor: nat, r: Option<Hit>)
    requires m.Valid() && cursor <= |h| && NothingBefore(m, h, ps, cursor) && Answer(m, h, ps, cursor, |h|, r)
    ensures FirstLook(m, h, ps, [|h|]) == r
  {
    AnswerFromStart(m, h, ps, cursor, |h|, r);
    LookAnswers(m, h, ps, |h|, r);
  }

  /** The window's answer is the look's, and no candidate inside the window beats it. */
  lemma {:induction false} WindowLook(m: Mode, h: Bytes, ps: seq<Pattern>, windowStart: nat, c: nat, w: Option<Hit>)
    requires m.Valid() && SafeCut(h, c) && NothingBefore(m, h, ps, windowStart) && Answer(m, h, ps, windowStart, c, w)
    ensures FindFrom(m, h[..c], ps) == w
  {
    AnswerFromStart(m, h, ps, windowStart, c, w);
    LookAnswers(m, h, ps, c, w);
  }

  /** A candidate inside the window never displaces the window's own answer. */
  lemma {:induction false} CandidateLoses(m: Mode, h: Bytes, ps: seq<Pattern>, windowStart: nat, spanStart: nat, c: nat, cand: Option<Hit>, w: Option<Hit>)
    requires m.Valid() && Answer(m, h, ps, windowStart, c, w) && spanStart <= c
    requires cand.Some? ==>
               (Occ(m, h, ps, cand.value.start, cand.value.pattern) &&
                End(m, h, ps, cand.value.start, cand.value.pattern) <= spanStart && windowStart <= cand.value.start)
    ensures Better(cand, w) == w
  {
  }

  /** An empty window means nothing starts before the end of its last run. */
  lemma {:induction false} EmptyWindow(m: Mode, h: Bytes, ps: seq<Pattern>, maxBytes: nat, windowStart: nat, last: nat)
    requires m.Valid() && Bounded(m, h, ps, maxBytes) && NothingBefore(m, h, ps, windowStart) && last <= |h|
    requires Answer(m, h, ps, windowStart, WindowEnd(h, last, maxBytes), None)
    ensures NothingBefore(m, h, ps, last)
  {
    forall q: nat, i: nat | Occ(m, h, ps, q, i) ensures last <= q {
    }
  }

  /** No occurrence of a pattern of the plan is wider than the plan's bound. */
  lemma {:induction false} PlanBounded(p: SearchPlan, h: Bytes)
    requires p.Valid()
    ensures Bounded(p.mode, h, p.Ps(), p.maxBytes)
  {
    forall q: nat, i: nat | Occ(p.mode, h, p.Ps(), q, i) ensures End(p.mode, h, p.Ps(), q, i) <= q + p.maxBytes {
      MatchWithinSpan(p.mode, h, q, p.Ps()[i]);
    }
  }

  // ----- the coordinator

  lemma {:induction false} NextIs(h: Bytes, at: nat, n: nat)
    requires at <= n <= |h| && Clean(h, at, n) && (n < |h| ==> Exceptional(h[n]))
    ensures NextExceptional(h, at) == n
    decreases n - at
  {
    if at < n {
      NextIs(h, at + 1, n);
    }
  }

  /** The first exceptional byte: a byte scan for NUL that also stops at high bytes. */
  method NextException(h: Bytes, at: nat) returns (n: nat)
    requires at <= |h|
    ensures n == NextExceptional(h, at)
  {
    var skipped := Swar.RootSkip(h, at, Exact, 0);
    n := at + skipped;
    NextIs(h, at, n);
  }

  method RunEnd(h: Bytes, at: nat) returns (n: nat)
    requires at <= |h|
    ensures n == SpanEnd(h, at)
  {
    n := at;
    while n < |h| && Exceptional(h[n])
      invariant at <= n <= |h| && SpanEnd(h, n) == SpanEnd(h, at)
    {
      n := n + 1;
    }
  }

  /** Coalesce the runs whose widened windows touch. */
  method GroupFrom(h: Bytes, maxBytes: nat, admit: nat -> bool, spanStart: nat, spanEnd: nat) returns (g: Group)
    requires spanEnd <= |h|
    ensures g == Coalesce(h, maxBytes, admit, spanStart, spanEnd)
  {
    var last, windowEnd := spanEnd, WindowEnd(h, spanEnd, maxBytes);
    while last < |h|
      invariant last <= |h| && windowEnd == WindowEnd(h, last, maxBytes)
      invariant Coalesce(h, maxBytes, admit, spanStart, last) == Coalesce(h, maxBytes, admit, spanStart, spanEnd)
      decreases |h| - last
    {
      var at := NextException(h, last);
      if at == |h| {
        break;
      }
      var nextSpanEnd := RunEnd(h, at);
      var nextWindowStart, nextWindowEnd := WindowStart(at, maxBytes), WindowEnd(h, nextSpanEnd, maxBytes);
      if nextWindowStart > windowEnd && at - spanStart > LOOKAHEAD {
        return Group(last, Some(at));
      }
      if !admit(at) {
        return Rejected;
      }
      if nextWindowStart > windowEnd {
        return Group(last, Some(at));
      }
      if nextWindowEnd > windowEnd {
        windowEnd := nextWindowEnd;
      }
      last := nextSpanEnd;
    }
    return Group(last, None);
  }

  /** The clean stretch before a group, then its window. An early find in the stretch is
      final; otherwise the window decides, and nothing starts before it. */
  method LookAround(p: SearchPlan, h: Bytes, ts: seq<Triple>, cursor: nat, spanStart: nat, last: nat, pending: Option<Hit>)
    returns (r: Option<Hit>, final: bool)
    requires Partitionable(p, ts)
    requires GroupStart(p.mode, h, p.Ps(), p.maxBytes, cursor, spanStart)
    requires Pending(p.mode, h, p.Ps(), p.maxBytes, spanStart, pending)
    requires spanStart < last <= |h| && SafeCut(h, WindowEnd(h, last, p.maxBytes))
    ensures final ==> r.Some? && forall c :: spanStart <= c ==> Answer(p.mode, h, p.Ps(), 0, c, r)
    ensures !final ==>
              && NothingBefore(p.mode, h, p.Ps(), WindowStart(spanStart, p.maxBytes))
              && Answer(p.mode, h, p.Ps(), WindowStart(spanStart, p.maxBytes), WindowEnd(h, last, p.maxBytes), r)
  {
    hide FindFrom, Reaches, Occ, End, OpaqueContinuation, ScreensAscii;
    ghost var m, ps := p.mode, p.Ps();
    var windowStart, windowEnd := WindowStart(spanStart, p.maxBytes), WindowEnd(h, last, p.maxBytes);
    PlanBounded(p, h);
    CleanCut(m, h, spanStart);
    var ascii := pending;
    if cursor < spanStart {
      var region := FindASCIIRegion(p, h, ts, cursor, spanStart);
      ascii := Better(region, pending);
      Settles(m, h, ps, p.maxBytes, cursor, spanStart, windowStart, region);
    }
    if ascii.Some? && ascii.value.start < windowStart {
      return ascii, true;
    }
    CleanCut(m, h, windowStart);
    var window := SearchSlice(p, h, windowStart, windowEnd);
    CandidateLoses(m, h, ps, windowStart, spanStart, windowEnd, ascii, window);
    return Better(ascii, window), false;
  }

  /** One group, as the code has it: whatever the window finds is the answer. Either the
      look at this group is settled, or nothing starts before the end of its last run. */
  method SearchGroup(p: SearchPlan, h: Bytes, ts: seq<Triple>, cursor: nat, spanStart: nat, last: nat, pending: Option<Hit>) returns (r: Option<Hit>)
    requires Partitionable(p, ts)
    requires GroupStart(p.mode, h, p.Ps(), p.maxBytes, cursor, spanStart)
    requires Pending(p.mode, h, p.Ps(), p.maxBytes, spanStart, pending)
    requires spanStart < last <= |h| && SafeCut(h, WindowEnd(h, last, p.maxBytes))
    ensures FindFrom(p.mode, h[..WindowEnd(h, last, p.maxBytes)], p.Ps()) == r
    ensures r == None ==> NothingBefore(p.mode, h, p.Ps(), last)
  {
    hide FindFrom, Reaches, Occ, End, OpaqueContinuation, ScreensAscii, Answer;
    ghost var m, ps := p.mode, p.Ps();
    ghost var windowStart, windowEnd := WindowStart(spanStart, p.maxBytes), WindowEnd(h, last, p.maxBytes);
    PlanBounded(p, h);
    var final;
    r, final := LookAround(p, h, ts, cursor, spanStart, last, pending);
    if final {
      LookAnswers(m, h, ps, windowEnd, r);
      return;
    }
    WindowLook(m, h, ps, windowStart, windowEnd, r);
    if r == None {
      EmptyWindow(m, h, ps, p.maxBytes, windowStart, last);
    }
  }

  /** The gap behind a group: an early find there is final, a late one waits for the next
      group's window. */
  method SearchGap(p: SearchPlan, h: Bytes, ts: seq<Triple>, last: nat, next: nat) returns (r: Option<Hit>)
    requires Partitionable(p, ts)
    requires NothingBefore(p.mode, h, p.Ps(), last) && last < next < |h| && Exceptional(h[next]) && Clean(h, last, next)
    requires Apart(h, p.maxBytes, last, next)
    ensures r.Some? && r.value.start < WindowStart(next, p.maxBytes) ==>
              forall c :: next <= c ==> Answer(p.mode, h, p.Ps(), 0, c, r)
    ensures !(r.Some? && r.value.start < WindowStart(next, p.maxBytes)) ==>
              GroupStart(p.mode, h, p.Ps(), p.maxBytes, WindowStart(next, p.maxBytes), next) &&
              Pending(p.mode, h, p.Ps(), p.maxBytes, next, r)
  {
    hide FindFrom, Reaches, Occ, End, FirstLook, OpaqueContinuation, ScreensAscii;
    ghost var m, ps := p.mode, p.Ps();
    var x := WindowStart(next, p.maxBytes);
    PlanBounded(p, h);
    CleanCut(m, h, last);
    CleanCut(m, h, next);
    CleanCut(m, h, x);
    r := FindASCIIRegion(p, h, ts, last, next);
    Settles(m, h, ps, p.maxBytes, last, next, x, r);
  }

  /** One round: group the runs from `spanStart` on, search what lies before and around
      them, then the gap behind. It answers, or names the next round. */
  method SearchRound(p: SearchPlan, h: Bytes, ts: seq<Triple>, cursor: nat, spanStart: nat, pending: Option<Hit>, admit: nat -> bool)
    returns (hit: Option<Hit>, next: Option<nat>)
    requires Partitionable(p, ts)
    requires GroupStart(p.mode, h, p.Ps(), p.maxBytes, cursor, spanStart) && Pending(p.mode, h, p.Ps(), p.maxBytes, spanStart, pending)
    ensures next.None? ==> hit == Partitioned(p.mode, h, p.Ps(), p.maxBytes, admit, spanStart)
    ensures next.Some? ==>
              && spanStart < next.value
              && GroupStart(p.mode, h, p.Ps(), p.maxBytes, WindowStart(next.value, p.maxBytes), next.value)
              && Pending(p.mode, h, p.Ps(), p.maxBytes, next.value, hit)
              && Partitioned(p.mode, h, p.Ps(), p.maxBytes, admit, next.value) == Partitioned(p.mode, h, p.Ps(), p.maxBytes, admit, spanStart)
  {
    hide FindFrom, Reaches, Occ, End, OpaqueContinuation, ScreensAscii, SearchPlan.Valid;
    ghost var m, ps := p.mode, p.Ps();
    var spanEnd := RunEnd(h, spanStart);
    var g := Rejected;
    if admit(spanStart) {
      g := GroupFrom(h, p.maxBytes, admit, spanStart, spanEnd);
    }
    if g.Rejected? {
      hit := SearchSlice(p, h, cursor, |h|);
      FallbackLook(m, h, ps, cursor, hit);
      return hit, None;
    }
    GroupSeparated(h, p.maxBytes, admit, spanStart, spanEnd);
    WindowEndSafe(h, p.maxBytes, g);
    hit := SearchGroup(p, h, ts, cursor, spanStart, g.lastHighEnd, pending);
    if hit.Some? {
      return hit, None;
    }
    if g.next.None? {
      CleanCut(m, h, g.lastHighEnd);
      hit := FindASCIIRegion(p, h, ts, g.lastHighEnd, |h|);
      FallbackLook(m, h, ps, g.lastHighEnd, hit);
      return hit, None;
    }
    hit := SearchGap(p, h, ts, g.lastHighEnd, g.next.value);
    if hit.Some? && hit.value.start < WindowStart(g.next.value, p.maxBytes) {
      SettledLook(m, h, ps, p.maxBytes, admit, g.next.value, hit);
      return hit, None;
    }
    next := g.next;
  }

  /** The partitioned search, as the code has it: it answers with the first look that
      finds anything. */
  method FindPartitionedASCII(p: SearchPlan, h: Bytes, ts: seq<Triple>, firstHigh: nat, admit: nat -> bool) returns (hit: Option<Hit>)
    requires Partitionable(p, ts)
    requires firstHigh < |h| && firstHigh == NextExceptional(h, 0)
    ensures hit == Partitioned(p.mode, h, p.Ps(), p.maxBytes, admit, firstHigh)
  {
    hide FindFrom, Reaches, Occ, End, OpaqueContinuation, ScreensAscii, Partitioned, SearchPlan.Valid;
    ghost var m, ps := p.mode, p.Ps();
    CleanCut(m, h, 0);
    var cursor: nat, spanStart: nat, pending := 0, firstHigh, None;
    while true
      invariant GroupStart(m, h, ps, p.maxBytes, cursor, spanStart)
      invariant Pending(m, h, ps, p.maxBytes, spanStart, pending)
      invariant Partitioned(m, h, ps, p.maxBytes, admit, firstHigh) == Partitioned(m, h, ps, p.maxBytes, admit, spanStart)
      decreases |h| - spanStart
    {
      var found, next := SearchRound(p, h, ts, cursor, spanStart, pending, admit);
      if next.None? {
        return found;
      }
      pending, cursor, spanStart := found, WindowStart(next.value, p.maxBytes), next.value;
    }
  }
}
