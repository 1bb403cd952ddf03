/** One ASCII pattern: its fixed-width spellings, the probe that finds them, and the
    first high byte the probe runs into. */
module AsciiOnly {
  import opened Utf8
  import opened Spec
  import opened Answers
  import opened AsciiSkip
  import Fold
  import Truncation

  /** A needle byte against a source byte: letters in either case. */
  predicate ByteMeets(want: byte, got: byte) {
    if IsAsciiLetter(want) then Lower(got) == Lower(want) else got == want
  }

  predicate SpelledAt(h: Bytes, q: nat, needle: Bytes) {
    q + |needle| <= |h| && forall i :: 0 <= i < |needle| ==> ByteMeets(needle[i], h[q + i])
  }

  /** No spelling starts in the range. */
  ghost predicate NoSpelling(h: Bytes, needle: Bytes, a: nat, b: nat) {
    forall q: nat :: a <= q < b ==> !SpelledAt(h, q, needle)
  }

  predicate AsciiNeedle(needle: Bytes) {
    |needle| >= 3 && AsciiRange(needle, 0, |needle|)
  }

  /** On ASCII, folding is what the byte comparison says. */
  lemma {:induction false} ByteSame(m: Mode, want: byte, got: byte)
    requires m.Valid() && Fold.FoldsAscii(m.fold) && IsAscii(want) && IsAscii(got)
    ensures Same(m, Rune(got), Rune(want)) <==> ByteMeets(want, got)
  {
  }

  lemma {:induction false} SpellingIsAscii(h: Bytes, q: nat, needle: Bytes)
    requires AsciiNeedle(needle) && SpelledAt(h, q, needle)
    ensures AsciiRange(h, q, q + |needle|)
  {
    forall x | q <= x < q + |needle| ensures IsAscii(h[x]) {
      var i := x - q;
      assert ByteMeets(needle[i], h[q + i]) && IsAscii(needle[i]);
    }
  }

  lemma {:induction false} NeedleUnits(m: Mode, needle: Bytes)
    requires m.Valid() && !m.exact && AsciiNeedle(needle)
    ensures var a := Units(m, needle);
            |a| == |needle| && forall j :: 0 <= j < |a| ==> a[j] == Rune(needle[j])
    ensures RunesOnly(AllUnits(m, [needle]))
  {
    Truncation.AsciiUnits(m, needle, 0);
  }

  /** Within ASCII, matching the needle from its byte `j` on is spelling the rest of it. */
  lemma {:induction false} AsciiZone(m: Mode, h: Bytes, q: nat, needle: Bytes, j: nat)
    requires m.Valid() && !m.exact && Fold.FoldsAscii(m.fold) && AsciiNeedle(needle) && j <= |needle|
    requires AsciiRange(h, q, q + |needle|)
    ensures |Units(m, needle)| == |needle|
    ensures MatchEnd(m, h, q + j, Units(m, needle)[j..]) ==
              if (forall i :: j <= i < |needle| ==> ByteMeets(needle[i], h[q + i])) then Some(q + |needle|) else None
    decreases |needle| - j
  {
    hide ByteMeets, Same, Units, Fold.FoldsAscii;
    var a := Units(m, needle);
    NeedleUnits(m, needle);
    if j < |needle| {
      AsciiZone(m, h, q, needle, j + 1);
      ByteSame(m, needle[j], h[q + j]);
      AsciiUnit(m, h, q + j);
      assert a[j..][0] == Rune(needle[j]) && a[j..][1..] == a[j + 1..];
    }
  }

  /** In an ASCII stretch long enough for the needle, it matches where it is spelled. */
  lemma {:induction false} ZoneMatch(m: Mode, h: Bytes, q: nat, needle: Bytes)
    requires m.Valid() && !m.exact && Fold.FoldsAscii(m.fold) && AsciiNeedle(needle) && AsciiRange(h, q, q + |needle|)
    ensures MatchEnd(m, h, q, Units(m, needle)) == if SpelledAt(h, q, needle) then Some(q + |needle|) else None
  {
    hide ByteMeets;
    AsciiZone(m, h, q, needle, 0);
    assert Units(m, needle)[0..] == Units(m, needle);
  }

  /** A match has at least one byte for each of its units. */
  lemma {:induction false} MatchLongEnough(m: Mode, h: Bytes, q: nat, p: Pattern)
    requires m.Valid() && q <= |h| && MatchEnd(m, h, q, p).Some?
    ensures MatchEnd(m, h, q, p).value >= q + |p|
    decreases |p|
  {
    if p != [] {
      MatchLongEnough(m, h, q + SizeAt(m, h, q), p[1..]);
    }
  }

  // ----- occurrences and spellings

  ghost function Lone(m: Mode, needle: Bytes): seq<Pattern> {
    AllUnits(m, [needle])
  }

  ghost predicate LoneMode(m: Mode, needle: Bytes) {
    m.Valid() && !m.exact && Fold.FoldsAscii(m.fold) && AsciiNeedle(needle)
  }

  lemma {:induction false} SpellingOccurs(m: Mode, h: Bytes, q: nat, needle: Bytes)
    requires LoneMode(m, needle) && SpelledAt(h, q, needle)
    ensures Occ(m, h, Lone(m, needle), q, 0) && End(m, h, Lone(m, needle), q, 0) == q + |needle|
  {
    hide SpelledAt;
    SpellingIsAscii(h, q, needle);
    ZoneMatch(m, h, q, needle);
    NonContinuationIsBoundary(m, h, 0, q);
  }

  /** An occurrence that starts in an ASCII stretch either is spelled there or runs out
      of the stretch; it needs a byte for each byte of the needle. */
  lemma {:induction false} OccInRange(m: Mode, h: Bytes, q: nat, i: nat, needle: Bytes, a: nat, b: nat)
    requires LoneMode(m, needle) && AsciiRange(h, a, b) && a <= q && Occ(m, h, Lone(m, needle), q, i)
    ensures i == 0 && q + |needle| <= End(m, h, Lone(m, needle), q, i)
    ensures q + |needle| <= b ==> SpelledAt(h, q, needle)
    ensures End(m, h, Lone(m, needle), q, i) <= b ==> SpelledAt(h, q, needle)
  {
    hide SpelledAt, ByteMeets;
    NeedleUnits(m, needle);
    MatchLongEnough(m, h, q, Units(m, needle));
    if q + |needle| <= b {
      ZoneMatch(m, h, q, needle);
    }
  }

  // ----- the probe

  predicate ProbeAt(h: Bytes, at: nat, needle: Bytes, probe: seq<nat>)
    requires at + |needle| <= |h| && forall k :: 0 <= k < |probe| ==> probe[k] < |needle|
  {
    forall k :: 0 <= k < |probe| ==> ByteMeets(needle[probe[k]], h[at + probe[k]])
  }

  /** Skip candidates whose probe positions disagree; stop at the first high byte. */
  method AsciiOnlyProbeSkip(h: Bytes, at: nat, limit: nat, needle: Bytes, probe: seq<nat>) returns (q: nat, ascii: bool)
    requires at <= limit && needle != [] && limit + |needle| <= |h| + 1 && forall k :: 0 <= k < |probe| ==> probe[k] < |needle|
    ensures at <= q <= limit && AsciiRange(h, at, q) && NoSpelling(h, needle, at, q)
    ensures q == limit ==> ascii
    ensures q < limit ==> ascii == IsAscii(h[q])
  {
    q := at;
    while q < limit
      invariant at <= q <= limit && AsciiRange(h, at, q) && NoSpelling(h, needle, at, q)
    {
      if !IsAscii(h[q]) {
        return q, false;
      }
      if ProbeAt(h, q, needle, probe) {
        return q, true;
      }
      q := q + 1;
    }
    ascii := true;
  }

  /** The first spelling that ends by `end`, unless a high byte comes first. A range too
      short for the needle is not looked at. */
  method FindASCIIOnlyAnchorWithHigh(h: Bytes, from: nat, end: nat, needle: Bytes, probe: seq<nat>)
    returns (hit: Option<nat>, high: Option<nat>)
    requires from <= end <= |h| && AsciiNeedle(needle) && forall k :: 0 <= k < |probe| ==> probe[k] < |needle|
    ensures hit.Some? ==>
              && high == None && from <= hit.value && hit.value + |needle| <= end && SpelledAt(h, hit.value, needle)
              && NoSpelling(h, needle, from, hit.value) && AsciiRange(h, from, hit.value + |needle|)
    ensures high.Some? ==>
              && hit == None && from <= high.value < end && !IsAscii(h[high.value])
              && AsciiRange(h, from, high.value) && NoSpelling(h, needle, from, high.value)
    ensures hit == None && high == None ==>
              && (end - from + 1 < |needle| || AsciiRange(h, from, end))
              && forall q: nat :: from <= q && q + |needle| <= end ==> !SpelledAt(h, q, needle)
  {
    hide SpelledAt, ByteMeets, ProbeAt;
    if end - from + 1 < |needle| {
      return None, None;
    }
    var limit: nat := end - |needle| + 1;
    var at := from;
    while at < limit
      invariant from <= at <= limit && AsciiRange(h, from, at) && NoSpelling(h, needle, from, at)
    {
      var ascii;
      ghost var before := at;
      at, ascii := AsciiOnlyProbeSkip(h, at, limit, needle, probe);
      if !ascii {
        return None, Some(at);
      }
      if at == limit {
        break;
      }
      if SpelledAt(h, at, needle) {
        SpellingIsAscii(h, at, needle);
        return Some(at), None;
      }
      at := at + 1;
    }
    var tail := limit;
    while tail < end
      invariant limit <= tail <= end && AsciiRange(h, from, tail)
    {
      if !IsAscii(h[tail]) {
        forall q: nat | from <= q < tail ensures !SpelledAt(h, q, needle) {
          if SpelledAt(h, q, needle) && q >= limit {
            SpellingIsAscii(h, q, needle);
            assert false;
          }
        }
        return None, Some(tail);
      }
      tail := tail + 1;
    }
    return None, None;
  }
}
