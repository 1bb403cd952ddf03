/** When the partitioned search is right. A window may end inside an occurrence that
    starts after the last run of its group; the search then answers with a pattern
    that fits the window. This happens for some haystack exactly when the pattern set
    shadows: a pattern that wins where it starts contains another one that ends
    before it does. */
module Truncation {
  import opened Utf8
  import opened Spec
  import opened Answers
  import opened Cuts
  import opened Lexer
  import Fold

  /** The units of `b` match those of `a` from position `k` on. */
  ghost predicate PartOf(m: Mode, a: Pattern, b: Pattern, k: nat)
    requires m.Valid()
  {
    k + |b| <= |a| && forall j :: 0 <= j < |b| ==> Same(m, a[k + j], b[j])
  }

  /** A unit that folds with an ASCII character other than NUL. */
  ghost predicate AsciiFolds(m: Mode, u: CodeUnit)
    requires m.Valid()
  {
    exists b: byte :: 0 < b < 0x80 && Same(m, Rune(b), u)
  }

  /** A pattern that can be spelled in ASCII without NUL. */
  ghost predicate AsciiSpelled(m: Mode, a: Pattern)
    requires m.Valid()
  {
    forall j :: 0 <= j < |a| ==> AsciiFolds(m, a[j])
  }

  /** No lower pattern is a prefix of pattern `i`, so where `i` matches it can win. */
  ghost predicate Dominant(m: Mode, ps: seq<Pattern>, i: nat)
    requires m.Valid()
  {
    i < |ps| && forall j :: 0 <= j < i ==> !PartOf(m, ps[i], ps[j], 0)
  }

  /** Pattern `j` occurs in the dominant ASCII pattern `i` at `k` and ends before it. */
  ghost predicate Shadows(m: Mode, ps: seq<Pattern>, i: nat, j: nat, k: nat)
    requires m.Valid()
  {
    && i < |ps| && j < |ps| && AsciiSpelled(m, ps[i]) && Dominant(m, ps, i)
    && PartOf(m, ps[i], ps[j], k) && k + |ps[j]| < |ps[i]|
  }

  ghost predicate TruncationSafe(m: Mode, ps: seq<Pattern>)
    requires m.Valid()
  {
    forall i: nat, j: nat, k: nat :: !Shadows(m, ps, i, j, k)
  }

  // ----- safe sets are answered right

  /** Matching over ASCII reads one byte per unit. */
  lemma {:induction false} AsciiMatch(m: Mode, h: Bytes, q: nat, a: Pattern, j: nat)
    requires m.Valid() && !m.exact && q <= |h| && MatchEnd(m, h, q, a).Some?
    requires forall x :: q <= x < MatchEnd(m, h, q, a).value ==> IsAscii(h[x])
    ensures MatchEnd(m, h, q, a).value == q + |a|
    ensures j < |a| ==> Same(m, Rune(h[q + j]), a[j])
    decreases |a|
  {
    if a != [] {
      assert UnitAt(m, h, q) == Rune(h[q]) && SizeAt(m, h, q) == 1;
      AsciiMatch(m, h, q + 1, a[1..], if j > 0 then j - 1 else 0);
      assert 0 < j < |a| ==> a[1..][j - 1] == a[j];
    }
  }

  /** An ASCII occurrence that begins before and ends after another one contains it. */
  lemma {:induction false} Contains(m: Mode, h: Bytes, ps: seq<Pattern>, q: nat, i: nat, r: nat, j: nat)
    requires m.Valid() && !m.exact && Occ(m, h, ps, q, i) && Occ(m, h, ps, r, j)
    requires q <= r && End(m, h, ps, r, j) <= End(m, h, ps, q, i)
    requires forall x :: q <= x < End(m, h, ps, q, i) ==> IsAscii(h[x])
    ensures PartOf(m, ps[i], ps[j], r - q)
    ensures End(m, h, ps, q, i) == q + |ps[i]| && End(m, h, ps, r, j) == r + |ps[j]|
  {
    AsciiMatch(m, h, q, ps[i], 0);
    AsciiMatch(m, h, r, ps[j], 0);
    forall t | 0 <= t < |ps[j]| ensures Same(m, ps[i][r - q + t], ps[j][t]) {
      AsciiMatch(m, h, q, ps[i], r - q + t);
      AsciiMatch(m, h, r, ps[j], t);
      SameSymmetric(m, Rune(h[r + t]), ps[i][r - q + t]);
      SameTransitive(m, ps[i][r - q + t], Rune(h[r + t]), ps[j][t]);
    }
  }

  /** A match of a pattern is a match of each pattern that is its prefix. */
  lemma {:induction false} PrefixMatches(m: Mode, h: Bytes, q: nat, a: Pattern, b: Pattern)
    requires m.Valid() && q <= |h| && MatchEnd(m, h, q, a).Some? && PartOf(m, a, b, 0)
    ensures MatchEnd(m, h, q, b).Some?
    decreases |b|
  {
    if b != [] {
      SameTransitive(m, UnitAt(m, h, q), a[0 + 0], b[0]);
      forall j | 0 <= j < |b[1..]| ensures Same(m, a[1..][0 + j], b[1..][j]) {
        assert Same(m, a[0 + (j + 1)], b[j + 1]);
      }
      PrefixMatches(m, h, q + SizeAt(m, h, q), a[1..], b[1..]);
    }
  }

  /** The pattern Find reports is dominant. */
  lemma {:induction false} WinnerDominates(m: Mode, h: Bytes, ps: seq<Pattern>, t: Hit)
    requires m.Valid() && Occ(m, h, ps, t.start, t.pattern)
    requires forall j: nat :: Occ(m, h, ps, t.start, j) ==> t.pattern <= j
    ensures Dominant(m, ps, t.pattern)
  {
    forall j | 0 <= j < t.pattern ensures !PartOf(m, ps[t.pattern], ps[j], 0) {
      if PartOf(m, ps[t.pattern], ps[j], 0) {
        PrefixMatches(m, h, t.start, ps[t.pattern], ps[j]);
        assert Occ(m, h, ps, t.start, j);
        assert false;
      }
    }
  }

  /** The end of a window, and the clean bytes beyond it. */
  ghost predicate WindowCut(h: Bytes, maxBytes: nat, last: nat, c: nat) {
    && last <= c <= |h| && SafeCut(h, c)
    && (c == |h| || (c == last + maxBytes && Clean(h, last, if c + maxBytes < |h| then c + maxBytes else |h|)))
  }

  /** For a safe set a look that finds anything finds the answer. */
  lemma {:induction false} SafeLook(m: Mode, h: Bytes, ps: seq<Pattern>, maxBytes: nat, last: nat, c: nat)
    requires m.Valid() && !m.exact && TruncationSafe(m, ps) && Bounded(m, h, ps, maxBytes)
    requires WindowCut(h, maxBytes, last, c)
    ensures FindFrom(m, h[..c], ps).Some? ==> FindFrom(m, h[..c], ps) == FindFrom(m, h, ps)
  {
    hide FindFrom, Occ, End, Same;
    var w, t := FindFrom(m, h[..c], ps), FindFrom(m, h, ps);
    WholeAnswer(m, h, ps, c);
    WholeAnswer(m, h, ps, |h|);
    if w.Some? && w != t {
      var win := t.value;
      if End(m, h, ps, win.start, win.pattern) > c {
        WinnerDominates(m, h, ps, win);
        Straddles(m, h, ps, maxBytes, last, c, win, w.value);
        assert false;
      }
    }
  }

  /** An occurrence across the end of a window that finds something shadows. */
  lemma {:induction false} Straddles(m: Mode, h: Bytes, ps: seq<Pattern>, maxBytes: nat, last: nat, c: nat, win: Hit, w: Hit)
    requires m.Valid() && !m.exact && Bounded(m, h, ps, maxBytes) && WindowCut(h, maxBytes, last, c)
    requires Occ(m, h, ps, win.start, win.pattern) && Occ(m, h, ps, w.start, w.pattern)
    requires win.start <= w.start && End(m, h, ps, w.start, w.pattern) <= c < End(m, h, ps, win.start, win.pattern)
    requires Dominant(m, ps, win.pattern)
    ensures Shadows(m, ps, win.pattern, w.pattern, w.start - win.start)
  {
    hide Same, Dominant;
    var e := End(m, h, ps, win.start, win.pattern);
    assert c < |h| && e <= win.start + maxBytes;
    assert forall x :: win.start <= x < e ==> !Exceptional(h[x]);
    Contains(m, h, ps, win.start, win.pattern, w.start, w.pattern);
    forall j | 0 <= j < |ps[win.pattern]| ensures AsciiFolds(m, ps[win.pattern][j]) {
      AsciiMatch(m, h, win.start, ps[win.pattern], j);
      var b := h[win.start + j];
      assert 0 < b < 0x80 && Same(m, Rune(b), ps[win.pattern][j]);
    }
  }

  lemma {:induction false} GroupCut(h: Bytes, maxBytes: nat, g: Group)
    requires g.Group? && Separated(h, maxBytes, g)
    ensures WindowCut(h, maxBytes, g.lastHighEnd, WindowEnd(h, g.lastHighEnd, maxBytes))
  {
    var last := g.lastHighEnd;
    var c := WindowEnd(h, last, maxBytes);
    if c < |h| {
      var to := if c + maxBytes < |h| then c + maxBytes else |h|;
      if g.next.Some? {
        assert to <= g.next.value;
      }
      assert !Exceptional(h[c]);
    }
  }

  lemma {:induction false} WholeLook(m: Mode, h: Bytes, ps: seq<Pattern>)
    requires m.Valid()
    ensures FirstLook(m, h, ps, [|h|]) == FindFrom(m, h, ps)
  {
    assert h[..|h|] == h;
  }

  /** For a safe set the partitioned search is Find, whatever is admitted. */
  lemma {:induction false} SafeIsExact(m: Mode, h: Bytes, ps: seq<Pattern>, maxBytes: nat, admit: nat -> bool, spanStart: nat)
    requires m.Valid() && !m.exact && TruncationSafe(m, ps) && Bounded(m, h, ps, maxBytes)
    requires spanStart < |h| && Exceptional(h[spanStart])
    ensures Partitioned(m, h, ps, maxBytes, admit, spanStart) == FindFrom(m, h, ps)
    decreases |h| - spanStart
  {
    hide FindFrom, TruncationSafe, Bounded, WindowCut;
    WholeLook(m, h, ps);
    var spanEnd := SpanEnd(h, spanStart);
    var g := Coalesce(h, maxBytes, admit, spanStart, spanEnd);
    GroupSeparated(h, maxBytes, admit, spanStart, spanEnd);
    if admit(spanStart) && g.Group? {
      var c := WindowEnd(h, g.lastHighEnd, maxBytes);
      GroupCut(h, maxBytes, g);
      SafeLook(m, h, ps, maxBytes, g.lastHighEnd, c);
      var cuts := Ends(h, maxBytes, admit, spanStart);
      if g.next.Some? {
        SafeIsExact(m, h, ps, maxBytes, admit, g.next.value);
        assert cuts[1..] == Ends(h, maxBytes, admit, g.next.value);
      } else {
        assert cuts[1..] == [|h|];
      }
    }
  }

  /** A window hit that starts no later than the end of its last run is the answer
      for every pattern set. */
  lemma {:induction false} EarlyHitIsExact(m: Mode, h: Bytes, ps: seq<Pattern>, maxBytes: nat, last: nat, c: nat)
    requires m.Valid() && Bounded(m, h, ps, maxBytes) && WindowCut(h, maxBytes, last, c)
    requires FindFrom(m, h[..c], ps).Some? && FindFrom(m, h[..c], ps).value.start <= last
    ensures FindFrom(m, h[..c], ps) == FindFrom(m, h, ps)
  {
    hide FindFrom, Occ, End;
    var w := FindFrom(m, h[..c], ps);
    WholeAnswer(m, h, ps, c);
    WholeAnswer(m, h, ps, |h|);
  }

  // ----- when one text is answered right

  /** An occurrence that runs past the cut is better than the hit found before it. */
  ghost predicate Undercut(m: Mode, h: Bytes, ps: seq<Pattern>, c: nat, w: Hit)
    requires m.Valid()
  {
    exists q: nat, i: nat :: Occ(m, h, ps, q, i) && End(m, h, ps, q, i) > c && !Before(w, q, i)
  }

  /** The first look that finds anything is not undercut. */
  ghost predicate FirstUncut(m: Mode, h: Bytes, ps: seq<Pattern>, cuts: seq<nat>)
    requires m.Valid() && forall i :: 0 <= i < |cuts| ==> cuts[i] <= |h|
  {
    cuts != [] ==>
      match FindFrom(m, h[..cuts[0]], ps)
      case Some(hit) => !Undercut(m, h, ps, cuts[0], hit)
      case None => FirstUncut(m, h, ps, cuts[1..])
  }

  /** A look that finds something finds the answer exactly when it is not undercut. */
  lemma {:induction false} LookExactly(m: Mode, h: Bytes, ps: seq<Pattern>, c: nat)
    requires m.Valid() && SafeCut(h, c) && FindFrom(m, h[..c], ps).Some?
    ensures FindFrom(m, h[..c], ps) == FindFrom(m, h, ps) <==> !Undercut(m, h, ps, c, FindFrom(m, h[..c], ps).value)
  {
    hide FindFrom, Occ, End;
    var w := FindFrom(m, h[..c], ps);
    WholeAnswer(m, h, ps, c);
    WholeAnswer(m, h, ps, |h|);
    if !Undercut(m, h, ps, c, w.value) {
      forall q: nat, i: nat | Occ(m, h, ps, q, i) ensures Before(w.value, q, i) {
      }
      AnswerUnique(m, h, ps, 0, |h|, w, FindFrom(m, h, ps));
    }
  }

  lemma {:induction false} LooksExactly(m: Mode, h: Bytes, ps: seq<Pattern>, cuts: seq<nat>)
    requires m.Valid() && cuts != [] && cuts[|cuts| - 1] == |h| && forall i :: 0 <= i < |cuts| ==> cuts[i] <= |h| && SafeCut(h, cuts[i])
    ensures FirstLook(m, h, ps, cuts) == FindFrom(m, h, ps) <==> FirstUncut(m, h, ps, cuts)
  {
    hide FindFrom, Undercut, SafeCut;
    if FindFrom(m, h[..cuts[0]], ps).Some? {
      LookExactly(m, h, ps, cuts[0]);
    } else if |cuts| > 1 {
      LooksExactly(m, h, ps, cuts[1..]);
    } else {
      assert h[..|h|] == h;
    }
  }

  lemma {:induction false} EndsSafe(h: Bytes, maxBytes: nat, admit: nat -> bool, spanStart: nat)
    requires spanStart < |h| && Exceptional(h[spanStart])
    ensures forall i :: 0 <= i < |Ends(h, maxBytes, admit, spanStart)| ==> SafeCut(h, Ends(h, maxBytes, admit, spanStart)[i])
    decreases |h| - spanStart
  {
    hide SafeCut, Separated, Exceptional;
    WholeSafe(h);
    var spanEnd := SpanEnd(h, spanStart);
    var g := Coalesce(h, maxBytes, admit, spanStart, spanEnd);
    GroupSeparated(h, maxBytes, admit, spanStart, spanEnd);
    if admit(spanStart) && g.Group? {
      GroupSafe(h, maxBytes, g);
      if g.next.Some? {
        EndsSafe(h, maxBytes, admit, g.next.value);
      }
    }
  }

  lemma {:induction false} WholeSafe(h: Bytes)
    ensures SafeCut(h, |h|)
  {
  }

  lemma {:induction false} GroupSafe(h: Bytes, maxBytes: nat, g: Group)
    requires g.Group? && Separated(h, maxBytes, g)
    ensures SafeCut(h, WindowEnd(h, g.lastHighEnd, maxBytes))
    ensures g.next.Some? ==> g.next.value < |h| && Exceptional(h[g.next.value]) && g.lastHighEnd <= g.next.value
  {
    GroupCut(h, maxBytes, g);
  }

  /** Whatever the set, a text is answered right exactly when no occurrence that runs past
      the first window with a hit beats that hit. */
  lemma {:induction false} RightExactly(m: Mode, h: Bytes, ps: seq<Pattern>, maxBytes: nat, admit: nat -> bool, spanStart: nat)
    requires m.Valid() && spanStart < |h| && Exceptional(h[spanStart])
    ensures Partitioned(m, h, ps, maxBytes, admit, spanStart) == FindFrom(m, h, ps)
       <==> FirstUncut(m, h, ps, Ends(h, maxBytes, admit, spanStart))
  {
    hide FindFrom, FirstUncut, FirstLook, Ends;
    EndsSafe(h, maxBytes, admit, spanStart);
    LooksExactly(m, h, ps, Ends(h, maxBytes, admit, spanStart));
  }

  /** What a look finds occurs in the text. */
  lemma {:induction false} LookOccurs(m: Mode, h: Bytes, ps: seq<Pattern>, cuts: seq<nat>)
    requires m.Valid() && forall i :: 0 <= i < |cuts| ==> cuts[i] <= |h| && SafeCut(h, cuts[i])
    ensures var r := FirstLook(m, h, ps, cuts); r.Some? ==> Occ(m, h, ps, r.value.start, r.value.pattern)
  {
    hide FindFrom, Occ, End, SafeCut;
    if cuts != [] {
      WholeAnswer(m, h, ps, cuts[0]);
      LookOccurs(m, h, ps, cuts[1..]);
    }
  }

  lemma {:induction false} PartitionedOccurs(m: Mode, h: Bytes, ps: seq<Pattern>, maxBytes: nat, admit: nat -> bool, spanStart: nat)
    requires m.Valid() && spanStart < |h| && Exceptional(h[spanStart])
    ensures var r := Partitioned(m, h, ps, maxBytes, admit, spanStart); r.Some? ==> Occ(m, h, ps, r.value.start, r.value.pattern)
  {
    hide FirstLook, Ends, Occ, SafeCut;
    EndsSafe(h, maxBytes, admit, spanStart);
    LookOccurs(m, h, ps, Ends(h, maxBytes, admit, spanStart));
  }

  /** A hit that starts by the end of the window's last run is never undercut. */
  lemma {:induction false} EarlyIsUncut(m: Mode, h: Bytes, ps: seq<Pattern>, maxBytes: nat, last: nat, c: nat)
    requires m.Valid() && Bounded(m, h, ps, maxBytes) && WindowCut(h, maxBytes, last, c)
    requires FindFrom(m, h[..c], ps).Some? && FindFrom(m, h[..c], ps).value.start <= last
    ensures !Undercut(m, h, ps, c, FindFrom(m, h[..c], ps).value)
  {
    hide FindFrom, Undercut;
    EarlyHitIsExact(m, h, ps, maxBytes, last, c);
    LookExactly(m, h, ps, c);
  }

  // ----- sets that are safe

  /** One pattern alone is safe. */
  lemma {:induction false} SingleIsSafe(m: Mode, p: Pattern)
    requires m.Valid()
    ensures TruncationSafe(m, [p])
  {
  }

  /** Patterns of one length are safe. */
  lemma {:induction false} EqualLengthsAreSafe(m: Mode, ps: seq<Pattern>)
    requires m.Valid() && forall i, j :: 0 <= i < |ps| && 0 <= j < |ps| ==> |ps[i]| == |ps[j]|
    ensures TruncationSafe(m, ps)
  {
  }

  // ----- sets that are not safe are answered wrong somewhere

  /** No pattern uses the scalar `r` or anything that folds with it. */
  ghost predicate Spare(m: Mode, ps: seq<Pattern>, r: int)
    requires m.Valid()
  {
    IsScalar(r) && forall i, j :: 0 <= i < |ps| && 0 <= j < |ps[i]| ==> !Same(m, Rune(r), ps[i][j])
  }

  /** An ASCII spelling of a pattern, without NUL. */
  ghost predicate Spelling(m: Mode, a: Pattern, f: Bytes)
    requires m.Valid()
  {
    |f| == |a| && forall j :: 0 <= j < |f| ==> 0 < f[j] < 0x80 && Same(m, Rune(f[j]), a[j])
  }

  ghost function AsciiForm(m: Mode, a: Pattern): (f: Bytes)
    requires m.Valid() && AsciiSpelled(m, a)
    ensures Spelling(m, a, f)
    decreases |a|
  {
    if a == [] then []
    else
      var last := |a| - 1;
      assert AsciiSpelled(m, a[..last]) && AsciiFolds(m, a[last]);
      var b: byte :| 0 < b < 0x80 && Same(m, Rune(b), a[last]);
      AsciiForm(m, a[..last]) + [b]
  }

  function Pad(z: byte, n: nat): (s: Bytes)
    ensures |s| == n && forall j :: 0 <= j < n ==> s[j] == z
  {
    seq(n, _ => z)
  }

  /** A haystack that the partitioned search answers wrong: one stray rune, padding so
      that its window ends one byte short of the winner, the winner's spelling, and a
      clean tail. */
  function Trap(f: Bytes, maxBytes: nat, z: byte, x: int, tail: nat): (h: Bytes)
    requires |f| <= maxBytes && IsScalar(x)
  {
    Encode(x) + Pad(z, maxBytes - |f| + 1) + f + Pad(z, tail)
  }

  /** Where the winner stands in the trap. */
  function TrapStart(f: Bytes, maxBytes: nat, x: int): nat
    requires |f| <= maxBytes && IsScalar(x)
  {
    RuneLen(x) + (maxBytes - |f| + 1)
  }

  lemma {:induction false} HighEncoding(x: int)
    requires IsScalar(x) && x >= 0x80
    ensures forall k :: 0 <= k < RuneLen(x) ==> Encode(x)[k] >= 0x80
  {
  }

  /** The trap byte by byte. */
  lemma {:induction false} TrapBytes(m: Mode, a: Pattern, f: Bytes, maxBytes: nat, z: byte, x: int, tail: nat)
    requires m.Valid() && Spelling(m, a, f) && 0 < |a| <= maxBytes && IsScalar(x) && x >= 0x80 && 0 < z < 0x80
    ensures var h, n, s := Trap(f, maxBytes, z, x, tail), RuneLen(x), TrapStart(f, maxBytes, x);
            && |h| == s + |a| + tail && n < s
            && (forall q :: 0 <= q < n ==> h[q] >= 0x80)
            && (forall q :: n <= q < |h| ==> 0 < h[q] < 0x80)
            && (forall q :: n <= q < s || s + |a| <= q < |h| ==> h[q] == z)
            && (forall j :: 0 <= j < |a| ==> Same(m, Rune(h[s + j]), a[j]))
            && h[0..n] == Encode(x)
  {
    hide Encode, Same;
    var e, pad, rest := Encode(x), Pad(z, maxBytes - |a| + 1), Pad(z, tail);
    var h, s := Trap(f, maxBytes, z, x, tail), TrapStart(f, maxBytes, x);
    HighEncoding(x);
    FourParts(e, pad, f, rest, h);
    forall j | 0 <= j < |a| ensures Same(m, Rune(h[s + j]), a[j]) {
      assert h[s + j] == f[j];
    }
  }

  lemma {:induction false} FourParts(e: Bytes, pad: Bytes, f: Bytes, rest: Bytes, h: Bytes)
    requires h == e + pad + f + rest
    ensures |h| == |e| + |pad| + |f| + |rest| && h[0..|e|] == e && forall q :: 0 <= q < |e| ==> h[q] == e[q]
    ensures forall q :: |e| <= q < |e| + |pad| ==> h[q] == pad[q - |e|]
    ensures forall q :: |e| + |pad| <= q < |e| + |pad| + |f| ==> h[q] == f[q - |e| - |pad|]
    ensures forall q :: |e| + |pad| + |f| <= q < |h| ==> h[q] == rest[q - |e| - |pad| - |f|]
  {
  }

  /** The trap has one run, at its start, and nothing else is exceptional. */
  lemma {:induction false} TrapEnds(m: Mode, a: Pattern, f: Bytes, maxBytes: nat, admit: nat -> bool, z: byte, x: int, tail: nat)
    requires m.Valid() && Spelling(m, a, f) && 0 < |a| <= maxBytes && IsScalar(x) && x >= 0x80 && 0 < z < 0x80
    requires admit(0)
    ensures var h := Trap(f, maxBytes, z, x, tail);
            && |h| > 0 && Exceptional(h[0]) && NextExceptional(h, 0) == 0
            && Ends(h, maxBytes, admit, 0) == [TrapStart(f, maxBytes, x) + |a| - 1, |h|]
  {
    hide Same;
    var h, n := Trap(f, maxBytes, z, x, tail), RuneLen(x);
    TrapBytes(m, a, f, maxBytes, z, x, tail);
    RunIs(h, 0, n);
    CleanIs(h, n);
  }

  lemma {:induction false} RunIs(h: Bytes, at: nat, n: nat)
    requires at <= n < |h| && (forall q :: at <= q < n ==> Exceptional(h[q])) && !Exceptional(h[n])
    ensures SpanEnd(h, at) == n
    decreases n - at
  {
    if at < n {
      RunIs(h, at + 1, n);
    }
  }

  lemma {:induction false} CleanIs(h: Bytes, at: nat)
    requires at <= |h| && Clean(h, at, |h|)
    ensures NextExceptional(h, at) == |h|
    decreases |h| - at
  {
    if at < |h| {
      CleanIs(h, at + 1);
    }
  }

  /** The ASCII bytes from `q` on fold with the units of `a`. */
  ghost predicate Spelled(m: Mode, h: Bytes, q: nat, a: Pattern)
    requires m.Valid()
  {
    q + |a| <= |h| && forall j: nat :: j < |a| ==> SpelledAt(m, h, q, a, j)
  }

  ghost predicate SpelledAt(m: Mode, h: Bytes, q: nat, a: Pattern, j: nat)
    requires m.Valid() && j < |a|
  {
    q + j < |h| && IsAscii(h[q + j]) && Same(m, Rune(h[q + j]), a[j])
  }

  lemma {:induction false} SpelledMatches(m: Mode, h: Bytes, q: nat, a: Pattern, j: nat)
    requires m.Valid() && !m.exact && Spelled(m, h, q, a) && j <= |a|
    ensures MatchEnd(m, h, q + j, a[j..]) == Some(q + |a|)
    decreases |a| - j
  {
    if j < |a| {
      SpelledMatches(m, h, q, a, j + 1);
      assert SpelledAt(m, h, q, a, j);
      assert UnitAt(m, h, q + j) == Rune(h[q + j]) && SizeAt(m, h, q + j) == 1;
      assert a[j..][1..] == a[j + 1..];
    }
  }

  lemma {:induction false} SpelledOccurs(m: Mode, h: Bytes, ps: seq<Pattern>, q: nat, i: nat)
    requires m.Valid() && !m.exact && i < |ps| && ps[i] != [] && Spelled(m, h, q, ps[i])
    ensures Occ(m, h, ps, q, i) && End(m, h, ps, q, i) == q + |ps[i]|
  {
    SpelledMatches(m, h, q, ps[i], 0);
    assert ps[i][0..] == ps[i];
    assert SpelledAt(m, h, q, ps[i], 0);
    NonContinuationIsBoundary(m, h, 0, q);
  }

  /** A part of a spelled pattern is spelled there. */
  lemma {:induction false} SpelledPart(m: Mode, h: Bytes, q: nat, a: Pattern, b: Pattern, k: nat)
    requires m.Valid() && Spelled(m, h, q, a) && PartOf(m, a, b, k)
    ensures Spelled(m, h, q + k, b)
  {
    var q' := q + k;
    forall t: nat | t < |b| ensures SpelledAt(m, h, q', b, t) {
      assert SpelledAt(m, h, q, a, k + t);
      SameTransitive(m, Rune(h[q' + t]), a[k + t], b[t]);
    }
  }

  lemma {:induction false} TrapSpelled(m: Mode, a: Pattern, f: Bytes, maxBytes: nat, z: byte, x: int, tail: nat)
    requires m.Valid() && Spelling(m, a, f) && 0 < |a| <= maxBytes && IsScalar(x) && x >= 0x80 && 0 < z < 0x80
    ensures Spelled(m, Trap(f, maxBytes, z, x, tail), TrapStart(f, maxBytes, x), a)
  {
    hide Same, Trap;
    TrapBytes(m, a, f, maxBytes, z, x, tail);
  }

  lemma {:induction false} FirstUnitReached(m: Mode, h: Bytes, q: nat)
    requires 0 < |h| && q <= |h| && Reaches(m, h, 0, q)
    ensures q == 0 || SizeAt(m, h, 0) <= q
  {
    assert q > 0 ==> Reaches(m, h, 0 + SizeAt(m, h, 0), q);
  }

  /** No pattern starts in the trap before the winner. */
  lemma {:induction false} TrapEmptyBefore(m: Mode, ps: seq<Pattern>, i: nat, f: Bytes, maxBytes: nat, z: byte, x: int, tail: nat, q: nat, j: nat)
    requires m.Valid() && !m.exact && i < |ps| && Spelling(m, ps[i], f) && 0 < |ps[i]| <= maxBytes
    requires 0 < z < 0x80 <= x && IsScalar(x) && Spare(m, ps, z) && Spare(m, ps, x) && j < |ps| && ps[j] != []
    requires Occ(m, Trap(f, maxBytes, z, x, tail), ps, q, j)
    ensures TrapStart(f, maxBytes, x) <= q
  {
    var h := Trap(f, maxBytes, z, x, tail);
    TrapBytes(m, ps[i], f, maxBytes, z, x, tail);
    DecodeEncode(h, 0, x);
    FirstUnitReached(m, h, q);
    assert SizeAt(m, h, 0) == RuneLen(x) && UnitAt(m, h, 0) == Rune(x);
    FirstUnitMatches(m, h, ps, q, j);
  }

  lemma {:induction false} FirstUnitMatches(m: Mode, h: Bytes, ps: seq<Pattern>, q: nat, j: nat)
    requires m.Valid() && Occ(m, h, ps, q, j) && ps[j] != []
    ensures q < |h| && Same(m, UnitAt(m, h, q), ps[j][0])
  {
  }

  /** A pattern that starts with the winner in the trap is a part of it. */
  lemma {:induction false} TrapPrefix(m: Mode, ps: seq<Pattern>, i: nat, f: Bytes, maxBytes: nat, z: byte, x: int, tail: nat, j: nat)
    requires m.Valid() && !m.exact && i < |ps| && Spelling(m, ps[i], f) && 0 < |ps[i]| <= maxBytes
    requires 0 < z < 0x80 <= x && IsScalar(x) && Spare(m, ps, z)
    requires Occ(m, Trap(f, maxBytes, z, x, tail), ps, TrapStart(f, maxBytes, x), j)
    ensures PartOf(m, ps[i], ps[j], 0)
  {
    hide Trap, TrapStart, Same;
    var h, s, a, b := Trap(f, maxBytes, z, x, tail), TrapStart(f, maxBytes, x), ps[i], ps[j];
    TrapBytes(m, a, f, maxBytes, z, x, tail);
    TrapRead(m, h, s, b);
    var after := s + |a|;
    assert after < |h| ==> h[after] == z;
    forall q | s <= q < s + |b| ensures h[q] != z {
      var t := q - s;
      assert Same(m, Rune(h[s + t]), b[t]);
    }
    assert |b| <= |a|;
    forall t | 0 <= t < |b| ensures Same(m, a[0 + t], b[t]) {
      SameSymmetric(m, Rune(h[s + t]), a[t]);
      SameTransitive(m, a[t], Rune(h[s + t]), b[t]);
    }
  }

  /** What occurs in an ASCII tail is spelled there byte by byte. */
  lemma {:induction false} TrapRead(m: Mode, h: Bytes, s: nat, b: Pattern)
    requires m.Valid() && !m.exact && s <= |h| && MatchEnd(m, h, s, b).Some? && forall q :: s <= q < |h| ==> IsAscii(h[q])
    ensures s + |b| <= |h| && forall t :: 0 <= t < |b| ==> Same(m, Rune(h[s + t]), b[t])
  {
    hide Same, MatchEnd;
    AsciiMatch(m, h, s, b, 0);
    forall t | 0 <= t < |b| ensures Same(m, Rune(h[s + t]), b[t]) {
      AsciiMatch(m, h, s, b, t);
    }
  }

  /** A shadowing set is answered wrong, however long and clean the haystack's tail. */
  lemma {:induction false} ShadowedIsWrong(m: Mode, ps: seq<Pattern>, maxBytes: nat, admit: nat -> bool,
                                           i: nat, j: nat, k: nat, f: Bytes, z: byte, x: int, tail: nat)
    requires m.Valid() && !m.exact && Shadows(m, ps, i, j, k) && Spelling(m, ps[i], f) && |ps[i]| <= maxBytes
    requires forall p :: p in ps ==> p != []
    requires 0 < z < 0x80 <= x && IsScalar(x) && Spare(m, ps, z) && Spare(m, ps, x) && admit(0)
    ensures var h := Trap(f, maxBytes, z, x, tail);
            && |h| > 0 && Exceptional(h[0]) && NextExceptional(h, 0) == 0
            && FindFrom(m, h, ps) == Some(Hit(i, TrapStart(f, maxBytes, x)))
            && Partitioned(m, h, ps, maxBytes, admit, 0) != FindFrom(m, h, ps)
  {
    hide FindFrom, Occ, End, AsciiSpelled, Same, Spare, PartOf, Ends, Dominant, Trap;
    var a, s := ps[i], TrapStart(f, maxBytes, x);
    var h := Trap(f, maxBytes, z, x, tail);
    var c := s + |a| - 1;
    assert ps[i] in ps && ps[j] in ps;
    TrapBytes(m, a, f, maxBytes, z, x, tail);
    TrapEnds(m, a, f, maxBytes, admit, z, x, tail);
    TrapSpelled(m, a, f, maxBytes, z, x, tail);
    SpelledOccurs(m, h, ps, s, i);
    SpelledPart(m, h, s, a, ps[j], k);
    SpelledOccurs(m, h, ps, s + k, j);
    TrapAnswer(m, ps, i, f, maxBytes, z, x, tail);
    WholeAnswer(m, h, ps, |h|);
    AnswerUnique(m, h, ps, 0, |h|, Some(Hit(i, s)), FindFrom(m, h, ps));
    assert !IsContinuation(h[c]);
    WholeAnswer(m, h, ps, c);
    assert FindFrom(m, h[..c], ps).Some?;
  }

  /** The winner is the trap's answer. */
  lemma {:induction false} TrapAnswer(m: Mode, ps: seq<Pattern>, i: nat, f: Bytes, maxBytes: nat, z: byte, x: int, tail: nat)
    requires m.Valid() && !m.exact && Dominant(m, ps, i) && Spelling(m, ps[i], f) && 0 < |ps[i]| <= maxBytes
    requires forall p :: p in ps ==> p != []
    requires 0 < z < 0x80 <= x && IsScalar(x) && Spare(m, ps, z) && Spare(m, ps, x)
    ensures var h := Trap(f, maxBytes, z, x, tail);
            Answer(m, h, ps, 0, |h|, Some(Hit(i, TrapStart(f, maxBytes, x))))
  {
    hide End, Same, PartOf;
    var s := TrapStart(f, maxBytes, x);
    var h := Trap(f, maxBytes, z, x, tail);
    TrapBytes(m, ps[i], f, maxBytes, z, x, tail);
    TrapSpelled(m, ps[i], f, maxBytes, z, x, tail);
    SpelledOccurs(m, h, ps, s, i);
    forall q: nat, j: nat | Occ(m, h, ps, q, j) ensures Before(Hit(i, s), q, j) {
      assert ps[j] in ps;
      TrapEmptyBefore(m, ps, i, f, maxBytes, z, x, tail, q, j);
      if q == s && j < i {
        TrapPrefix(m, ps, i, f, maxBytes, z, x, tail, j);
        assert false;
      }
    }
  }

  // ----- the exact condition

  /** The partitioned search is Find on every haystack, whatever is admitted. */
  ghost predicate AlwaysRight(m: Mode, ps: seq<Pattern>, maxBytes: nat)
    requires m.Valid()
  {
    forall h: Bytes, admit: nat -> bool, s: nat | s < |h| && Exceptional(h[s]) && s == NextExceptional(h, 0) ::
      Partitioned(m, h, ps, maxBytes, admit, s) == FindFrom(m, h, ps)
  }

  lemma {:induction false} SafeIsRight(m: Mode, ps: seq<Pattern>, maxBytes: nat)
    requires m.Valid() && !m.exact && forall p :: p in ps ==> Encodable(p) && Span(m, p) <= maxBytes
    requires TruncationSafe(m, ps)
    ensures AlwaysRight(m, ps, maxBytes)
  {
    hide FindFrom, Ends, NextExceptional, TruncationSafe, Bounded, Partitioned;
    forall h: Bytes, admit: nat -> bool, s: nat | s < |h| && Exceptional(h[s]) && s == NextExceptional(h, 0)
      ensures Partitioned(m, h, ps, maxBytes, admit, s) == FindFrom(m, h, ps)
    {
      SpansBound(m, h, ps, maxBytes);
      SafeIsExact(m, h, ps, maxBytes, admit, s);
    }
  }

  lemma {:induction false} ShadowedIsNotRight(m: Mode, ps: seq<Pattern>, maxBytes: nat, i: nat, j: nat, k: nat, z: byte, x: int)
    requires m.Valid() && !m.exact && Shadows(m, ps, i, j, k) && |ps[i]| <= maxBytes
    requires forall p :: p in ps ==> p != []
    requires 0 < z < 0x80 <= x && IsScalar(x) && Spare(m, ps, z) && Spare(m, ps, x)
    ensures !AlwaysRight(m, ps, maxBytes)
  {
    hide FindFrom, Ends, NextExceptional, Spare, Partitioned, Trap;
    var admit := (n: nat) => true;
    var f := AsciiForm(m, ps[i]);
    ShadowedIsWrong(m, ps, maxBytes, admit, i, j, k, f, z, x, 0);
    var h := Trap(f, maxBytes, z, x, 0);
    assert Partitioned(m, h, ps, maxBytes, admit, 0) != FindFrom(m, h, ps);
  }

  /** A pattern set is answered right on every haystack exactly when it does not shadow,
      provided some ASCII byte and some other scalar occur in no pattern. */
  lemma {:induction false} RightIffSafe(m: Mode, ps: seq<Pattern>, maxBytes: nat, z: byte, x: int)
    requires m.Valid() && !m.exact && forall p :: p in ps ==> p != [] && Encodable(p) && Span(m, p) <= maxBytes
    requires 0 < z < 0x80 <= x && IsScalar(x) && Spare(m, ps, z) && Spare(m, ps, x)
    ensures AlwaysRight(m, ps, maxBytes) <==> TruncationSafe(m, ps)
  {
    hide Spare, AlwaysRight;
    if TruncationSafe(m, ps) {
      SafeIsRight(m, ps, maxBytes);
    } else {
      var i: nat, j: nat, k: nat :| Shadows(m, ps, i, j, k);
      assert ps[i] in ps;
      SpanAtLeastLength(m, ps[i]);
      ShadowedIsNotRight(m, ps, maxBytes, i, j, k, z, x);
    }
  }

  lemma {:induction false} SpansBound(m: Mode, h: Bytes, ps: seq<Pattern>, maxBytes: nat)
    requires m.Valid() && forall p :: p in ps ==> Encodable(p) && Span(m, p) <= maxBytes
    ensures Bounded(m, h, ps, maxBytes)
  {
    forall q: nat, i: nat | Occ(m, h, ps, q, i) ensures End(m, h, ps, q, i) <= q + maxBytes {
      assert ps[i] in ps;
      MatchWithinSpan(m, h, q, ps[i]);
    }
  }

  lemma {:induction false} SpanAtLeastLength(m: Mode, p: Pattern)
    requires m.Valid() && Encodable(p)
    ensures |p| <= Span(m, p)
  {
    if p != [] {
      SpanAtLeastLength(m, p[..|p| - 1]);
    }
  }

  // ----- ASCII text

  function Ascii(s: string): (t: Bytes)
    requires forall i :: 0 <= i < |s| ==> s[i] < 128 as char
    ensures |t| == |s| && forall i :: 0 <= i < |t| ==> t[i] == s[i] as int && IsAscii(t[i])
  {
    seq(|s|, i requires 0 <= i < |s| => s[i] as int)
  }

  lemma {:induction false} AsciiUnits(m: Mode, s: Bytes, at: nat)
    requires !m.exact && at <= |s| && forall i :: 0 <= i < |s| ==> IsAscii(s[i])
    ensures |Units(m, s, at)| == |s| - at
    ensures forall j :: 0 <= j < |s| - at ==> Units(m, s, at)[j] == Rune(s[at + j])
    decreases |s| - at
  {
    if at < |s| {
      AsciiUnits(m, s, at + 1);
      assert Units(m, s, at) == [Rune(s[at])] + Units(m, s, at + 1);
      forall j | 0 <= j < |s| - at ensures Units(m, s, at)[j] == Rune(s[at + j]) {
        if j > 0 {
          assert Units(m, s, at + 1)[j - 1] == Rune(s[at + 1 + (j - 1)]);
        }
      }
    }
  }
}
