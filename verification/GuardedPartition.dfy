/** The coordinator of the partitioned search with one test added: a window's hit is an
    answer only when it starts by the end of the window's last run. A later hit says no
    more than that nothing starts by then, and the search goes on. So guarded it is right
    for every set of patterns, whatever their lengths. */
module GuardedPartition {
  import opened Utf8
  import opened Spec
  import opened Answers
  import opened Cuts
  import opened Plan
  import opened TripleFilters
  import opened Filtered
  import opened Partition

  /** What a window tells. A hit that starts by the end of the last run is the answer, for
      every occurrence the window cuts off starts behind it; without such a hit nothing
      starts by then at all. */
  lemma {:induction false} WindowTells(m: Mode, h: Bytes, ps: seq<Pattern>, maxBytes: nat, windowStart: nat, last: nat, w: Option<Hit>)
    requires m.Valid() && Bounded(m, h, ps, maxBytes) && NothingBefore(m, h, ps, windowStart) && last <= |h|
    requires Answer(m, h, ps, windowStart, WindowEnd(h, last, maxBytes), w)
    ensures w.Some? && w.value.start <= last ==> Answer(m, h, ps, 0, |h|, w)
    ensures !(w.Some? && w.value.start <= last) ==> forall q: nat, i: nat :: Occ(m, h, ps, q, i) ==> last < q
  {
  }

  /** One guarded round. It answers, or names the next group: then nothing starts before
      the new cursor, which is a boundary, and a find in the gap is kept. */
  method GuardedRound(p: SearchPlan, h: Bytes, ts: seq<Triple>, cursor: nat, spanStart: nat, pending: Option<Hit>, admit: nat -> bool)
    returns (hit: Option<Hit>, next: Option<nat>)
    requires Partitionable(p, ts)
    requires GroupStart(p.mode, h, p.Ps(), p.maxBytes, cursor, spanStart) && Pending(p.mode, h, p.Ps(), p.maxBytes, spanStart, pending)
    ensures next.None? ==> hit == FindFrom(p.mode, h, p.Ps())
    ensures next.Some? ==>
              && spanStart < next.value
              && GroupStart(p.mode, h, p.Ps(), p.maxBytes, WindowStart(next.value, p.maxBytes), next.value)
              && Pending(p.mode, h, p.Ps(), p.maxBytes, next.value, hit)
  {
    hide FindFrom, Reaches, Occ, End, OpaqueContinuation, ScreensAscii, SearchPlan.Valid, Answer;
    ghost var m, ps := p.mode, p.Ps();
    var spanEnd := RunEnd(h, spanStart);
    var g := Rejected;
    if admit(spanStart) {
      g := GroupFrom(h, p.maxBytes, admit, spanStart, spanEnd);
    }
    if g.Rejected? {
      hit := SearchSlice(p, h, cursor, |h|);
      AnswerFromStart(m, h, ps, cursor, |h|, hit);
      WholeIs(m, h, ps, hit);
      return hit, None;
    }
    GroupSeparated(h, p.maxBytes, admit, spanStart, spanEnd);
    WindowEndSafe(h, p.maxBytes, g);
    var final;
    hit, final := LookAround(p, h, ts, cursor, spanStart, g.lastHighEnd, pending);
    if final {
      WholeIs(m, h, ps, hit);
      return hit, None;
    }
    PlanBounded(p, h);
    WindowTells(m, h, ps, p.maxBytes, WindowStart(spanStart, p.maxBytes), g.lastHighEnd, hit);
    if hit.Some? && hit.value.start <= g.lastHighEnd {
      WholeIs(m, h, ps, hit);
      return hit, None;
    }
    if g.next.None? {
      CleanCut(m, h, g.lastHighEnd);
      hit := FindASCIIRegion(p, h, ts, g.lastHighEnd, |h|);
      AnswerFromStart(m, h, ps, g.lastHighEnd, |h|, hit);
      WholeIs(m, h, ps, hit);
      return hit, None;
    }
    hit := SearchGap(p, h, ts, g.lastHighEnd, g.next.value);
    if hit.Some? && hit.value.start < WindowStart(g.next.value, p.maxBytes) {
      WholeIs(m, h, ps, hit);
      return hit, None;
    }
    next := g.next;
  }

  /** The guarded coordinator answers as Find, for every set of patterns. */
  method FindGuardedASCII(p: SearchPlan, h: Bytes, ts: seq<Triple>, firstHigh: nat, admit: nat -> bool) returns (hit: Option<Hit>)
    requires Partitionable(p, ts)
    requires firstHigh < |h| && firstHigh == NextExceptional(h, 0)
    ensures hit == FindFrom(p.mode, h, p.Ps())
  {
    hide FindFrom, Reaches, Occ, End, OpaqueContinuation, ScreensAscii, SearchPlan.Valid;
    ghost var m, ps := p.mode, p.Ps();
    CleanCut(m, h, 0);
    var cursor: nat, spanStart: nat, pending := 0, firstHigh, None;
    while true
      invariant GroupStart(m, h, ps, p.maxBytes, cursor, spanStart)
      invariant Pending(m, h, ps, p.maxBytes, spanStart, pending)
      decreases |h| - spanStart
    {
      var found, next := GuardedRound(p, h, ts, cursor, spanStart, pending, admit);
      if next.None? {
        return found;
      }
      pending, cursor, spanStart := found, WindowStart(next.value, p.maxBytes), next.value;
    }
  }
}
