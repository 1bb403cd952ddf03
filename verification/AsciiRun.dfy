/** A pattern that repeats one byte, in either case of a letter. Blocks of the haystack are
    reduced to masks, and a run is carried from mask to mask until it is long enough. */
module AsciiRun {
  import opened Utf8
  import opened Spec
  import opened AsciiSkip
  import opened AsciiOnly
  import opened Plan
  import opened FixedAnchor
  import Fold

  /** A run of `need` bytes that meet the needle stands at `q`. */
  predicate RunAt(h: Bytes, q: nat, kind: Kind, value: byte, need: nat) {
    q + need <= |h| && forall x :: q <= x < q + need ==> Meets(kind, value, h[x])
  }

  /** No such run ends by `end`. */
  ghost predicate NoRun(h: Bytes, end: nat, kind: Kind, value: byte, need: nat) {
    forall q: nat :: q + need <= end ==> !RunAt(h, q, kind, value, need)
  }

  /** The bytes up to `at` have been read and end with a run of `run` bytes. */
  ghost predicate Carried(h: Bytes, at: nat, run: nat, runStart: nat, kind: Kind, value: byte, need: nat) {
    && at <= |h| && run < need && run <= at && (run > 0 ==> runStart == at - run)
    && (forall x :: at - run <= x < at ==> Meets(kind, value, h[x]))
    && (at - run > 0 ==> !Meets(kind, value, h[at - run - 1]))
    && NoRun(h, at, kind, value, need)
  }

  /** The next position of the mask that does not meet the needle, or its end. */
  function NextMissing(mask: seq<bool>, position: nat): (next: nat)
    requires position <= |mask|
    ensures position <= next <= |mask| && (next < |mask| ==> !mask[next]) && forall k :: position <= k < next ==> mask[k]
    decreases |mask| - position
  {
    if position == |mask| || !mask[position] then position else NextMissing(mask, position + 1)
  }

  /** `mask` says which of the bytes from `at` on meet the needle. */
  ghost predicate MaskOf(mask: seq<bool>, h: Bytes, at: nat, kind: Kind, value: byte) {
    at + |mask| <= |h| && forall k :: 0 <= k < |mask| ==> (mask[k] <==> Meets(kind, value, h[at + k]))
  }

  /** A gap of meeting bytes lengthens the run; long enough, it is the first run. */
  lemma {:induction false} Lengthen(h: Bytes, at: nat, run: nat, runStart: nat, gap: nat, kind: Kind, value: byte, need: nat)
    requires Carried(h, at, run, runStart, kind, value, need) && 0 < gap && at + gap <= |h|
    requires forall x :: at <= x < at + gap ==> Meets(kind, value, h[x])
    ensures run + gap < need ==> Carried(h, at + gap, run + gap, at - run, kind, value, need)
    ensures run + gap >= need ==> RunAt(h, at - run, kind, value, need) && forall q: nat :: q < at - run ==> !RunAt(h, q, kind, value, need)
  {
    forall q: nat | q < at - run ensures !RunAt(h, q, kind, value, need) {
      var before: nat := at - run - 1;
      assert !Meets(kind, value, h[before]);
      assert q + need > at ==> q <= before < q + need;
    }
    if run + gap < need {
      forall q: nat | q + need <= at + gap ensures !RunAt(h, q, kind, value, need) {
        assert q < at - run;
      }
    }
  }

  /** A byte that does not meet the needle ends the run. */
  lemma {:induction false} Break(h: Bytes, at: nat, run: nat, runStart: nat, kind: Kind, value: byte, need: nat)
    requires Carried(h, at, run, runStart, kind, value, need) && at < |h| && !Meets(kind, value, h[at])
    ensures Carried(h, at + 1, 0, 0, kind, value, need)
  {
    forall q: nat | q + need <= at + 1 ensures !RunAt(h, q, kind, value, need) {
      if q + need == at + 1 {
        assert q <= at < q + need;
      }
    }
  }

  /** The run start does not matter while there is no run. */
  lemma {:induction false} AnyStart(h: Bytes, at: nat, start: nat, start': nat, kind: Kind, value: byte, need: nat)
    requires Carried(h, at, 0, start, kind, value, need)
    ensures Carried(h, at, 0, start', kind, value, need)
  {
  }

  ghost predicate FirstRun(h: Bytes, q: nat, kind: Kind, value: byte, need: nat) {
    RunAt(h, q, kind, value, need) && forall r: nat :: r < q ==> !RunAt(h, r, kind, value, need)
  }

  /** Take in one mask. */
  method Consume(ghost h: Bytes, mask: seq<bool>, at: nat, run0: nat, runStart0: nat, ghost kind: Kind, ghost value: byte, need: nat)
    returns (found: Option<nat>, run: nat, runStart: nat)
    requires MaskOf(mask, h, at, kind, value) && Carried(h, at, run0, runStart0, kind, value, need)
    ensures found.Some? ==> FirstRun(h, found.value, kind, value, need)
    ensures found.None? ==> Carried(h, at + |mask|, run, runStart, kind, value, need)
  {
    hide Carried, Meets, RunAt;
    run, runStart := run0, runStart0;
    var position := 0;
    while true
      invariant position <= |mask| && Carried(h, at + position, run, runStart, kind, value, need)
      decreases |mask| - position
    {
      var next := NextMissing(mask, position);
      var gap := next - position;
      if gap != 0 {
        forall x | at + position <= x < at + next ensures Meets(kind, value, h[x]) {
          assert mask[x - at] && h[at + (x - at)] == h[x];
        }
        Lengthen(h, at + position, run, runStart, gap, kind, value, need);
        StartIs(h, at + position, run, runStart, kind, value, need);
        if run == 0 {
          runStart := at + position;
        }
        run := run + gap;
        if run >= need {
          return Some(runStart), run, runStart;
        }
      }
      if next == |mask| {
        return None, run, runStart;
      }
      Break(h, at + next, run, runStart, kind, value, need);
      AnyStart(h, at + next + 1, 0, runStart, kind, value, need);
      run, position := 0, next + 1;
    }
  }

  lemma {:induction false} StartIs(h: Bytes, at: nat, run: nat, runStart: nat, kind: Kind, value: byte, need: nat)
    requires Carried(h, at, run, runStart, kind, value, need)
    ensures run <= at && (run > 0 ==> runStart == at - run)
  {
  }

  /** Whole blocks by mask, the rest byte by byte. */
  method FindASCIIRunBytes(h: Bytes, kind: Kind, value: byte, need: nat, width: nat) returns (found: Option<nat>)
    requires need > 0 && width > 0
    ensures found.Some? ==> FirstRun(h, found.value, kind, value, need)
    ensures found.None? ==> forall q: nat :: !RunAt(h, q, kind, value, need)
  {
    hide Carried, Meets, RunAt;
    var at: nat, run: nat, runStart: nat := 0, 0, 0;
    NothingCarried(h, kind, value, need);
    while at + width <= |h|
      invariant at <= |h| && Carried(h, at, run, runStart, kind, value, need)
      decreases |h| - at
    {
      var mask := seq(width, k requires 0 <= k < width && at + width <= |h| => Meets(kind, value, h[at + k]));
      found, run, runStart := Consume(h, mask, at, run, runStart, kind, value, need);
      if found.Some? {
        return;
      }
      at := at + width;
    }
    while at < |h|
      invariant at <= |h| && Carried(h, at, run, runStart, kind, value, need)
    {
      if Meets(kind, value, h[at]) {
        Lengthen(h, at, run, runStart, 1, kind, value, need);
        StartIs(h, at, run, runStart, kind, value, need);
        if run == 0 {
          runStart := at;
        }
        run := run + 1;
        if run >= need {
          return Some(runStart);
        }
      } else {
        Break(h, at, run, runStart, kind, value, need);
        AnyStart(h, at + 1, 0, runStart, kind, value, need);
        run := 0;
      }
      at := at + 1;
    }
    NothingLeft(h, run, runStart, kind, value, need);
    return None;
  }

  lemma {:induction false} NothingCarried(h: Bytes, kind: Kind, value: byte, need: nat)
    requires need > 0
    ensures Carried(h, 0, 0, 0, kind, value, need)
  {
  }

  lemma {:induction false} NothingLeft(h: Bytes, run: nat, runStart: nat, kind: Kind, value: byte, need: nat)
    requires Carried(h, |h|, run, runStart, kind, value, need)
    ensures forall q: nat :: !RunAt(h, q, kind, value, need)
  {
    forall q: nat ensures !RunAt(h, q, kind, value, need) {
      assert q + need <= |h| ==> !RunAt(h, q, kind, value, need);
    }
  }

  // ----- the pattern as a run

  /** Every byte of the needle is compared alike. */
  predicate Repeats(needle: Bytes, kind: Kind, value: byte) {
    && kind != Generic
    && forall i :: 0 <= i < |needle| ==>
         if kind == AsciiFold then IsAsciiLetter(needle[i]) && Lower(needle[i]) == value else !IsAsciiLetter(needle[i]) && needle[i] == value
  }

  method RunOf(needle: Bytes) returns (kind: Kind, value: byte, same: bool)
    requires |needle| > 0
    ensures same ==> Repeats(needle, kind, value)
  {
    if IsAsciiLetter(needle[0]) {
      kind, value := AsciiFold, Lower(needle[0]);
    } else {
      kind, value := Exact, needle[0];
    }
    for i := 0 to |needle|
      invariant Repeats(needle[..i], kind, value)
    {
      var lower := if IsAsciiLetter(needle[i]) then Lower(needle[i]) else needle[i];
      if lower != value {
        return kind, value, false;
      }
    }
    assert needle[..|needle|] == needle;
    same := true;
  }

  lemma {:induction false} RunIsSpelling(h: Bytes, q: nat, needle: Bytes, kind: Kind, value: byte)
    requires Repeats(needle, kind, value)
    ensures RunAt(h, q, kind, value, |needle|) <==> SpelledAt(h, q, needle)
  {
    if q + |needle| <= |h| {
      forall i | 0 <= i < |needle| ensures Meets(kind, value, h[q + i]) <==> ByteMeets(needle[i], h[q + i]) {
      }
      if SpelledAt(h, q, needle) {
        forall x | q <= x < q + |needle| ensures Meets(kind, value, h[x]) {
          var i := x - q;
          assert h[x] == h[q + i] && (Meets(kind, value, h[q + i]) <==> ByteMeets(needle[i], h[q + i]));
        }
      }
    }
  }

  /** Find for a pattern that is one repeated fixed byte. */
  method FindASCIIRun(p: SearchPlan, needle: Bytes, h: Bytes, kind: Kind, value: byte, width: nat) returns (hit: Option<Hit>)
    requires Alone(p, needle) && FixedNeedle(p.mode, needle) && Repeats(needle, kind, value) && width > 0
    ensures hit == FindFrom(p.mode, h, p.Ps())
  {
    hide SearchPlan.Valid, Fold.FoldsAscii, Repeats, FindFrom, RunAt, SpelledAt, MatchHere, Window;
    var found := FindASCIIRunBytes(h, kind, value, |needle|, width);
    forall q: nat ensures MatchHere(p.mode, h, needle, q) <==> RunAt(h, q, kind, value, |needle|) {
      RunIsSpelling(h, q, needle, kind, value);
      FixedSpelled(p.mode, h, needle, q);
    }
    if found.Some? {
      RunInside(h, found.value, kind, value, |needle|);
      FirstMatch(p, needle, h, 0, found.value);
      return Some(Hit(0, found.value));
    }
    NoMatch(p, needle, h, 0);
    return None;
  }

  lemma {:induction false} RunInside(h: Bytes, q: nat, kind: Kind, value: byte, need: nat)
    requires RunAt(h, q, kind, value, need)
    ensures q + need <= |h|
  {
  }
}
