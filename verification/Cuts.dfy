/** The places where the partitioned search cuts a haystack. Maximal runs of
    exceptional bytes are grouped when their widened windows touch; the window of a
    group ends a pattern's width after its last run. */
module Cuts {
  import opened Utf8
  import opened Spec
  import opened Answers

  const LOOKAHEAD := 1024 * 16

  predicate Exceptional(b: byte) {
    !IsAscii(b) || b == 0
  }

  ghost predicate Clean(h: Bytes, a: nat, b: nat) {
    b <= |h| && forall q :: a <= q < b ==> !Exceptional(h[q])
  }

  /** The first exceptional byte at or after `at`, or the end. */
  function NextExceptional(h: Bytes, at: nat): (n: nat)
    requires at <= |h|
    ensures at <= n <= |h| && Clean(h, at, n) && (n < |h| ==> Exceptional(h[n]))
    decreases |h| - at
  {
    if at == |h| || Exceptional(h[at]) then at else NextExceptional(h, at + 1)
  }

  /** The end of the run of exceptional bytes at `at`. */
  function SpanEnd(h: Bytes, at: nat): (n: nat)
    requires at <= |h|
    ensures at <= n <= |h| && (n < |h| ==> !Exceptional(h[n]))
    ensures at < |h| && Exceptional(h[at]) ==> at < n && Exceptional(h[n - 1])
    decreases |h| - at
  {
    if at == |h| || !Exceptional(h[at]) then at else SpanEnd(h, at + 1)
  }

  function WindowStart(at: nat, maxBytes: nat): nat {
    if at < maxBytes then 0 else at - maxBytes
  }

  function WindowEnd(h: Bytes, at: nat, maxBytes: nat): nat {
    if at + maxBytes < |h| then at + maxBytes else |h|
  }

  /** A group of exceptional runs: where its last run ends and where the next group
      starts, unless some run of it was not admitted. */
  datatype Group = Rejected | Group(lastHighEnd: nat, next: Option<nat>)

  /** `at` starts a run whose window does not touch that of a group ending at `last`. */
  predicate Apart(h: Bytes, maxBytes: nat, last: nat, at: nat) {
    WindowStart(at, maxBytes) > WindowEnd(h, last, maxBytes)
  }

  /** Extend the group that starts at `spanStart` and so far ends at `last`. Whether a
      run is admitted depends on density and validity, which decide cost, not results. */
  function Coalesce(h: Bytes, maxBytes: nat, admit: nat -> bool, spanStart: nat, last: nat): (g: Group)
    requires last <= |h|
    decreases |h| - last
  {
    var at := NextExceptional(h, last);
    if at == |h| then Group(last, None)
    else if Apart(h, maxBytes, last, at) && at - spanStart > LOOKAHEAD then Group(last, Some(at))
    else if !admit(at) then Rejected
    else if Apart(h, maxBytes, last, at) then Group(last, Some(at))
    else Coalesce(h, maxBytes, admit, spanStart, SpanEnd(h, at))
  }

  /** What separates a group from the rest of the haystack. */
  ghost predicate Separated(h: Bytes, maxBytes: nat, g: Group) {
    g.Group? ==>
      && g.lastHighEnd <= |h|
      && match g.next
         case None => Clean(h, g.lastHighEnd, |h|)
         case Some(n) => n < |h| && Exceptional(h[n]) && Clean(h, g.lastHighEnd, n) && Apart(h, maxBytes, g.lastHighEnd, n)
  }

  lemma {:induction false} GroupSeparated(h: Bytes, maxBytes: nat, admit: nat -> bool, spanStart: nat, last: nat)
    requires last <= |h|
    ensures Separated(h, maxBytes, Coalesce(h, maxBytes, admit, spanStart, last))
    ensures var g := Coalesce(h, maxBytes, admit, spanStart, last); g.Group? ==> last <= g.lastHighEnd
    decreases |h| - last
  {
    var at := NextExceptional(h, last);
    if at < |h| {
      GroupSeparated(h, maxBytes, admit, spanStart, SpanEnd(h, at));
    }
  }

  /** A run of exceptional bytes starts at `at`; the one before it ends at `e`, or the scan
      began there. */
  ghost predicate Gap(h: Bytes, last: nat, e: nat, at: nat) {
    last <= e <= at < |h| && Exceptional(h[at]) && Clean(h, e, at) && (e == last || (e < at && Exceptional(h[e - 1])))
  }

  /** The runs up to `to` are no further than two pattern widths apart, and admitted. */
  ghost predicate Joined(h: Bytes, maxBytes: nat, admit: nat -> bool, last: nat, to: nat) {
    forall e: nat, at: nat :: Gap(h, last, e, at) && at < to ==> at <= e + 2 * maxBytes && admit(at)
  }

  /** What a group is: the runs in it are joined, the next one is further off, and a run
      that is not admitted rejects it, unless it is both far off and beyond the lookahead
      of 16384 bytes. */
  ghost predicate IsGroup(h: Bytes, maxBytes: nat, admit: nat -> bool, spanStart: nat, last: nat, g: Group) {
    match g
    case Rejected =>
      exists e: nat, at: nat :: Gap(h, last, e, at) && !admit(at) && Joined(h, maxBytes, admit, last, at) && (at <= e + 2 * maxBytes || at - spanStart <= 16384)
    case Group(end, None) =>
      last <= end <= |h| && Clean(h, end, |h|) && (end == last || Exceptional(h[end - 1])) && Joined(h, maxBytes, admit, last, end)
    case Group(end, Some(n)) =>
      && Gap(h, last, end, n) && n > end + 2 * maxBytes && Joined(h, maxBytes, admit, last, end) && (admit(n) || n - spanStart > 16384)
  }

  lemma {:induction false} FirstGap(h: Bytes, last: nat, e: nat, at: nat)
    requires last <= |h| && Gap(h, last, e, at)
    ensures var first := NextExceptional(h, last);
            first <= at && (first == at ==> e == last) && (first < at ==> SpanEnd(h, first) <= e || at < SpanEnd(h, first))
    ensures var first := NextExceptional(h, last); first < at && SpanEnd(h, first) <= e ==> Gap(h, SpanEnd(h, first), e, at)
  {
    var first := NextExceptional(h, last);
    if first < at {
      RunFilled(h, first);
    }
  }

  lemma {:induction false} RunFilled(h: Bytes, at: nat)
    requires at <= |h|
    ensures forall q :: at <= q < SpanEnd(h, at) ==> Exceptional(h[q])
    decreases |h| - at
  {
    if at < |h| && Exceptional(h[at]) {
      RunFilled(h, at + 1);
    }
  }

  /** Inside a run no gap ends. */
  lemma {:induction false} NoGapInside(h: Bytes, last: nat, e: nat, at: nat)
    requires last <= |h| && Gap(h, last, e, at) && NextExceptional(h, last) < at
    ensures SpanEnd(h, NextExceptional(h, last)) <= e
  {
    var first := NextExceptional(h, last);
    RunFilled(h, first);
    assert Exceptional(h[first]);
    var b := h[e];
    if e < SpanEnd(h, first) {
      assert false;
    }
  }

  lemma {:induction false} JoinedOn(h: Bytes, maxBytes: nat, admit: nat -> bool, last: nat, to: nat)
    requires last <= |h| && NextExceptional(h, last) < |h| && NextExceptional(h, last) <= last + 2 * maxBytes && admit(NextExceptional(h, last))
    requires Joined(h, maxBytes, admit, SpanEnd(h, NextExceptional(h, last)), to)
    ensures Joined(h, maxBytes, admit, last, to)
  {
    forall e: nat, at: nat | Gap(h, last, e, at) && at < to ensures at <= e + 2 * maxBytes && admit(at) {
      FirstGap(h, last, e, at);
      if NextExceptional(h, last) < at {
        NoGapInside(h, last, e, at);
      }
    }
  }

  lemma {:induction false} NoneJoined(h: Bytes, maxBytes: nat, admit: nat -> bool, last: nat, to: nat)
    requires last <= |h| && to <= NextExceptional(h, last)
    ensures Joined(h, maxBytes, admit, last, to)
  {
    forall e: nat, at: nat | Gap(h, last, e, at) ensures to <= at {
      FirstGap(h, last, e, at);
    }
  }

  lemma {:induction false} LaterGap(h: Bytes, last: nat, e: nat, at: nat)
    requires last <= |h| && NextExceptional(h, last) < |h| && Gap(h, SpanEnd(h, NextExceptional(h, last)), e, at)
    ensures Gap(h, last, e, at)
  {
  }

  /** Coalescing finds the group. */
  lemma {:induction false} CoalesceExactly(h: Bytes, maxBytes: nat, admit: nat -> bool, spanStart: nat, last: nat)
    requires last <= |h|
    ensures IsGroup(h, maxBytes, admit, spanStart, last, Coalesce(h, maxBytes, admit, spanStart, last))
    decreases |h| - last
  {
    hide Joined, Exceptional;
    var at := NextExceptional(h, last);
    NoneJoined(h, maxBytes, admit, last, last);
    NoneJoined(h, maxBytes, admit, last, at);
    if at < |h| {
      assert Gap(h, last, last, at);
      assert Apart(h, maxBytes, last, at) <==> at > last + 2 * maxBytes;
      if at <= last + 2 * maxBytes && admit(at) {
        var end := SpanEnd(h, at);
        CoalesceExactly(h, maxBytes, admit, spanStart, end);
        GroupJoins(h, maxBytes, admit, spanStart, last, Coalesce(h, maxBytes, admit, spanStart, end));
      }
    }
  }

  lemma {:induction false} GroupJoins(h: Bytes, maxBytes: nat, admit: nat -> bool, spanStart: nat, last: nat, g: Group)
    requires last <= |h| && NextExceptional(h, last) < |h| && NextExceptional(h, last) <= last + 2 * maxBytes && admit(NextExceptional(h, last))
    requires IsGroup(h, maxBytes, admit, spanStart, SpanEnd(h, NextExceptional(h, last)), g)
    ensures IsGroup(h, maxBytes, admit, spanStart, last, g)
  {
    hide Joined, Exceptional;
    var first := NextExceptional(h, last);
    var end := SpanEnd(h, first);
    match g {
      case Rejected =>
        var e: nat, at: nat :| Gap(h, end, e, at) && !admit(at) && Joined(h, maxBytes, admit, end, at) && (at <= e + 2 * maxBytes || at - spanStart <= 16384);
        LaterGap(h, last, e, at);
        JoinedOn(h, maxBytes, admit, last, at);
      case Group(to, None) =>
        JoinedOn(h, maxBytes, admit, last, to);
      case Group(to, Some(n)) =>
        LaterGap(h, last, to, n);
        JoinedOn(h, maxBytes, admit, last, to);
    }
  }

  /** The windows the partitioned search looks through, by their ends, from the run at
      `spanStart` on; the last look is at the whole haystack. */
  function Ends(h: Bytes, maxBytes: nat, admit: nat -> bool, spanStart: nat): (cuts: seq<nat>)
    requires spanStart < |h| && Exceptional(h[spanStart])
    ensures |cuts| > 0 && forall i :: 0 <= i < |cuts| ==> spanStart < cuts[i] <= |h|
    ensures cuts[|cuts| - 1] == |h|
    decreases |h| - spanStart
  {
    GroupSeparated(h, maxBytes, admit, spanStart, SpanEnd(h, spanStart));
    if !admit(spanStart) then [|h|]
    else
      match Coalesce(h, maxBytes, admit, spanStart, SpanEnd(h, spanStart))
      case Rejected => [|h|]
      case Group(last, None) => [WindowEnd(h, last, maxBytes), |h|]
      case Group(last, Some(n)) => [WindowEnd(h, last, maxBytes)] + Ends(h, maxBytes, admit, n)
  }

  /** The answer of the first look that finds anything. */
  ghost function FirstLook(m: Mode, h: Bytes, ps: seq<Pattern>, cuts: seq<nat>): Option<Hit>
    requires m.Valid() && forall i :: 0 <= i < |cuts| ==> cuts[i] <= |h|
  {
    if cuts == [] then None
    else
      match FindFrom(m, h[..cuts[0]], ps)
      case Some(hit) => Some(hit)
      case None => FirstLook(m, h, ps, cuts[1..])
  }

  /** What the partitioned search answers, as a function of its inputs. */
  ghost function Partitioned(m: Mode, h: Bytes, ps: seq<Pattern>, maxBytes: nat, admit: nat -> bool, spanStart: nat): Option<Hit>
    requires m.Valid() && spanStart < |h| && Exceptional(h[spanStart])
  {
    FirstLook(m, h, ps, Ends(h, maxBytes, admit, spanStart))
  }

  /** A clean byte, or a run's edge, never splits a unit. */
  lemma {:induction false} CleanCut(m: Mode, h: Bytes, n: nat)
    requires n <= |h| && (n == 0 || n == |h| || !Exceptional(h[n]) || !Exceptional(h[n - 1]))
    ensures SafeCut(h, n) && Reaches(m, h, 0, n)
  {
    SafeCutIsBoundary(m, h, 0, n);
  }

  /** The look that ends at `c` is the least occurrence ending by `c`. */
  lemma {:induction false} LookAnswers(m: Mode, h: Bytes, ps: seq<Pattern>, c: nat, r: Option<Hit>)
    requires m.Valid() && SafeCut(h, c) && Answer(m, h, ps, 0, c, r)
    ensures FindFrom(m, h[..c], ps) == r
  {
    WholeAnswer(m, h, ps, c);
    AnswerUnique(m, h, ps, 0, c, r, FindFrom(m, h[..c], ps));
  }
}
