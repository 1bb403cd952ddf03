/** The board's answer key: fold the whole haystack once, search the folded bytes for each
    folded pattern, keep every pattern's next occurrence, and map offsets back to the
    source. It shares nothing with the plan, yet enumerates the same matches. */
module Oracle {
  import opened Utf8
  import opened Spec
  import opened Greedy
  import opened Displacements
  import Fold

  // ----- fold keys

  ghost function LeastOf(t: Fold.Table, r: int, n: nat): int
    requires Fold.Valid(t)
  {
    if n == 0 then r
    else
      var before, here := LeastOf(t, r, n - 1), Fold.Iter(t, r, n);
      if here < before then here else before
  }

  /** The smallest member of the orbit of `r`. */
  ghost function Key(t: Fold.Table, r: int): int
    requires Fold.Valid(t)
  {
    LeastOf(t, r, Fold.Period(t, r) - 1)
  }

  lemma {:induction false} LeastBounds(t: Fold.Table, r: int, n: nat, k: nat)
    requires Fold.Valid(t) && k <= n
    ensures LeastOf(t, r, n) <= Fold.Iter(t, r, k)
    ensures Fold.SameOrbit(t, r, LeastOf(t, r, n))
  {
    if n == 0 {
      Fold.OrbitReflexive(t, r);
    } else {
      LeastBounds(t, r, n - 1, if k < n then k else n - 1);
      assert Fold.SameOrbit(t, r, Fold.Iter(t, r, n));
    }
  }

  /** Folding together is having the same key. */
  lemma {:induction false} SameKey(t: Fold.Table, a: int, b: int)
    requires Fold.Valid(t)
    ensures Fold.SameOrbit(t, a, Key(t, a))
    ensures Fold.SameOrbit(t, a, b) <==> Key(t, a) == Key(t, b)
  {
    KeyLeast(t, a, Key(t, a));
    KeyLeast(t, b, Key(t, b));
    if Fold.SameOrbit(t, a, b) {
      Fold.OrbitTransitive(t, a, b, Key(t, b));
      KeyLeast(t, a, Key(t, b));
      Fold.OrbitSymmetric(t, a, b);
      Fold.OrbitTransitive(t, b, a, Key(t, a));
      KeyLeast(t, b, Key(t, a));
    }
    if Key(t, a) == Key(t, b) {
      Fold.OrbitSymmetric(t, b, Key(t, b));
      Fold.OrbitTransitive(t, a, Key(t, a), b);
    }
  }

  lemma {:induction false} KeyLeast(t: Fold.Table, r: int, x: int)
    requires Fold.Valid(t)
    ensures Fold.SameOrbit(t, r, Key(t, r))
    ensures Fold.SameOrbit(t, r, x) ==> Key(t, r) <= x
  {
    LeastBounds(t, r, Fold.Period(t, r) - 1, 0);
    if Fold.SameOrbit(t, r, x) {
      var n: nat :| Fold.Iter(t, r, n) == x;
      var k := Fold.WithinPeriod(t, r, n);
      LeastBounds(t, r, Fold.Period(t, r) - 1, k);
    }
  }

  lemma {:induction false} KeyScalar(t: Fold.Table, r: int)
    requires Fold.Valid(t) && IsScalar(r)
    ensures IsScalar(Key(t, r))
  {
    KeyLeast(t, r, r);
    Fold.OrbitScalar(t, r, Key(t, r));
  }

  method FoldKey(t: Fold.Table, r: int) returns (key: int)
    requires Fold.Valid(t)
    ensures key == Key(t, r)
    ensures Fold.SameOrbit(t, r, key) && forall x :: Fold.SameOrbit(t, r, x) ==> key <= x
  {
    key := r;
    var x := Fold.Next(t, r);
    ghost var k := 1;
    assert Fold.Iter(t, r, 0) == r;
    while x != r
      invariant 1 <= k <= Fold.Period(t, r) && x == Fold.Iter(t, r, k) && key == LeastOf(t, r, k - 1)
      decreases Fold.Period(t, r) - k
    {
      if x < key {
        key := x;
      }
      assert Fold.Iter(t, r, k + 1) == Fold.Next(t, x);
      x, k := Fold.Next(t, x), k + 1;
    }
    assert k == Fold.Period(t, r);
    forall x | Fold.SameOrbit(t, r, x) ensures key <= x {
      KeyLeast(t, r, x);
    }
    KeyLeast(t, r, r);
  }

  // ----- folded text

  /** From `at` on the string is well-formed UTF-8. */
  predicate WellFormed(s: Bytes, at: nat)
    requires at <= |s|
    decreases |s| - at
  {
    at == |s| || (FormLen(s, at) > 0 && WellFormed(s, at + FormLen(s, at)))
  }

  method ValidString(s: Bytes) returns (ok: bool)
    ensures ok <==> WellFormed(s, 0)
  {
    var at: nat := 0;
    while at < |s|
      invariant at <= |s| && WellFormed(s, at) == WellFormed(s, 0)
      decreases |s| - at
    {
      if FormLen(s, at) == 0 {
        return false;
      }
      at := at + FormLen(s, at);
    }
    ok := true;
  }

  /** The folded bytes of some runes. */
  ghost function KeyBytes(t: Fold.Table, runes: seq<int>): (s: Bytes)
    requires Fold.Valid(t) && Scalars(runes)
    ensures |s| >= |runes| && (runes != [] ==> s != [] && !IsContinuation(s[0]))
  {
    if runes == [] then []
    else
      KeyScalar(t, runes[0]);
      Encode(Key(t, runes[0])) + KeyBytes(t, runes[1..])
  }

  /** How the source and its folded form line up, rune by rune. */
  datatype Layout = Layout(runes: seq<int>, source: seq<nat>, folded: seq<nat>)

  ghost predicate SourceLaid(h: Bytes, l: Layout) {
    && |l.source| == |l.runes| + 1 && l.source[0] == 0
    && (forall j :: 0 <= j < |l.source| ==> l.source[j] <= |h|)
    && (forall j :: 0 <= j < |l.runes| ==>
          && l.source[j] < |h| && FormLen(h, l.source[j]) > 0 && FormRune(h, l.source[j]) == l.runes[j]
          && l.source[j + 1] == l.source[j] + FormLen(h, l.source[j]))
  }

  /** What decoding makes of the bytes at `at`: a malformed byte reads as U+FFFD. */
  function Decoded(h: Bytes, at: nat): (r: int)
    requires at < |h|
    ensures IsScalar(r)
  {
    if FormLen(h, at) == 0 then 0xFFFD else FormRune(h, at)
  }

  function DecodedLen(h: Bytes, at: nat): (n: nat)
    requires at < |h|
    ensures n > 0 && at + n <= |h|
  {
    if FormLen(h, at) == 0 then 1 else FormLen(h, at)
  }

  /** The layout follows decoding from the first byte to the last. */
  ghost predicate SourceRead(h: Bytes, l: Layout) {
    && |l.source| == |l.runes| + 1 && l.source[0] == 0
    && (forall j :: 0 <= j < |l.source| ==> l.source[j] <= |h|)
    && (forall j :: 0 <= j < |l.runes| ==>
          && l.source[j] < |h| && Decoded(h, l.source[j]) == l.runes[j]
          && l.source[j + 1] == l.source[j] + DecodedLen(h, l.source[j]))
  }

  /** In well-formed text every rune of the layout is a rune of the source. */
  lemma {:induction false} ReadLaid(h: Bytes, l: Layout)
    requires SourceRead(h, l) && WellFormed(h, 0)
    ensures SourceLaid(h, l)
  {
    hide FormLen, FormRune;
    forall j | 0 <= j < |l.runes| ensures FormLen(h, l.source[j]) > 0 {
      ReadFormed(h, l, j);
    }
  }

  lemma {:induction false} ReadFormed(h: Bytes, l: Layout, j: nat)
    requires SourceRead(h, l) && WellFormed(h, 0) && j <= |l.runes|
    ensures WellFormed(h, l.source[j])
  {
    hide FormLen, FormRune;
    if j > 0 {
      var before: nat := j - 1;
      ReadFormed(h, l, before);
      assert l.source[before + 1] == l.source[before] + DecodedLen(h, l.source[before]);
    }
  }

  ghost predicate FoldedLaid(t: Fold.Table, text: Bytes, l: Layout)
    requires Fold.Valid(t)
  {
    && |l.folded| == |l.runes| + 1 && l.folded[0] == 0 && l.folded[|l.runes|] == |text|
    && (forall j :: 0 <= j < |l.folded| ==> l.folded[j] <= |text|)
    && (forall j :: 0 <= j < |l.runes| ==> RuneLaid(t, text, l.runes[j], l.folded[j], l.folded[j + 1]))
  }

  ghost predicate RuneLaid(t: Fold.Table, text: Bytes, r: int, from: nat, to: nat)
    requires Fold.Valid(t)
  {
    && IsScalar(r) && IsScalar(Key(t, r)) && to == from + RuneLen(Key(t, r)) <= |text|
    && text[from..to] == Encode(Key(t, r))
  }

  ghost predicate Origins(l: Layout, origin: seq<nat>)
    requires |l.source| == |l.folded| == |l.runes| + 1
  {
    forall j, b :: 0 <= j < |l.runes| && l.folded[j] <= b < l.folded[j + 1] && b < |origin| ==> origin[b] == l.source[j]
  }

  function Grow(l: Layout, r: int, source: nat, folded: nat): Layout {
    Layout(l.runes + [r], l.source + [source], l.folded + [folded])
  }

  /** One more rune of the source. */
  lemma {:induction false} GrowSource(h: Bytes, l: Layout, at: nat, folded: nat)
    requires SourceRead(h, l) && at == l.source[|l.runes|] && at < |h|
    ensures SourceRead(h, Grow(l, Decoded(h, at), at + DecodedLen(h, at), folded))
  {
    hide FormLen, FormRune;
  }

  lemma {:induction false} GrowFolded(t: Fold.Table, text: Bytes, l: Layout, r: int, source: nat)
    requires Fold.Valid(t) && FoldedLaid(t, text, l) && IsScalar(r) && IsScalar(Key(t, r))
    ensures var form := Encode(Key(t, r)); FoldedLaid(t, text + form, Grow(l, r, source, |text| + |form|))
  {
    hide Key, Encode, RuneLaid;
    var n, form := |l.runes|, Encode(Key(t, r));
    var text', l' := text + form, Grow(l, r, source, |text| + |form|);
    forall j | 0 <= j < |l'.runes| ensures RuneLaid(t, text', l'.runes[j], l'.folded[j], l'.folded[j + 1]) {
      if j < n {
        StillLaid(t, text, form, l.runes[j], l.folded[j], l.folded[j + 1]);
      } else {
        NewLaid(t, text, r);
      }
    }
  }

  lemma {:induction false} StillLaid(t: Fold.Table, text: Bytes, form: Bytes, r: int, from: nat, to: nat)
    requires Fold.Valid(t) && RuneLaid(t, text, r, from, to)
    ensures RuneLaid(t, text + form, r, from, to)
  {
    hide Key, Encode;
    assert (text + form)[from..to] == text[from..to];
  }

  lemma {:induction false} NewLaid(t: Fold.Table, text: Bytes, r: int)
    requires Fold.Valid(t) && IsScalar(r) && IsScalar(Key(t, r))
    ensures RuneLaid(t, text + Encode(Key(t, r)), r, |text|, |text| + |Encode(Key(t, r))|)
  {
    hide Key;
    var form := Encode(Key(t, r));
    assert (text + form)[|text|..|text| + |form|] == form;
  }

  lemma {:induction false} GrowOrigins(l: Layout, text: Bytes, origin: seq<nat>, r: int, at: nat, source: nat, n: nat)
    requires |l.source| == |l.folded| == |l.runes| + 1 && Origins(l, origin) && |origin| == |text|
    requires l.source[|l.runes|] == at && l.folded[|l.runes|] == |text| && forall j :: 0 <= j < |l.folded| ==> l.folded[j] <= |text|
    ensures Origins(Grow(l, r, source, |text| + n), origin + seq(n, _ => at))
  {
    var l', origin' := Grow(l, r, source, |text| + n), origin + seq(n, _ => at);
    forall j, b | 0 <= j < |l'.runes| && l'.folded[j] <= b < l'.folded[j + 1] && b < |origin'| ensures origin'[b] == l'.source[j] {
      if j < |l.runes| {
        assert l'.folded[j + 1] == l.folded[j + 1];
      }
    }
  }

  /** Fold a haystack, and record for each folded byte where its rune came from. A
      malformed byte is folded as U+FFFD. */
  method FoldWithOrigin(t: Fold.Table, h: Bytes) returns (text: Bytes, origin: seq<nat>, ghost l: Layout)
    requires Fold.Valid(t)
    ensures SourceRead(h, l) && FoldedLaid(t, text, l) && l.source[|l.runes|] == |h|
    ensures forall j :: 0 <= j < |l.runes| ==> l.runes[j] == if FormLen(h, l.source[j]) == 0 then 0xFFFD else FormRune(h, l.source[j])
    ensures |origin| == |text| + 1 && origin[|text|] == |h| && Origins(l, origin)
  {
    hide Key, FoldedLaid, SourceRead, Origins, Encode, FormLen, FormRune;
    text, origin, l := [], [], Layout([], [0], [0]);
    LaidNothing(t, h);
    var at: nat := 0;
    while at < |h|
      invariant at <= |h| && SourceRead(h, l) && FoldedLaid(t, text, l) && |l.source| == |l.folded| == |l.runes| + 1
      invariant Origins(l, origin) && |origin| == |text|
      invariant l.source[|l.runes|] == at
      decreases |h| - at
    {
      var r, next := Decoded(h, at), at + DecodedLen(h, at);
      var key := FoldKey(t, r);
      KeyScalar(t, r);
      var form := Encode(key);
      FoldedEnds(t, text, l);
      GrowSource(h, l, at, |text| + |form|);
      GrowFolded(t, text, l, r, next);
      GrowOrigins(l, text, origin, r, at, next, |form|);
      l := Grow(l, r, next, |text| + |form|);
      text, origin, at := text + form, origin + seq(|form|, _ => at), next;
    }
    FoldedEnds(t, text, l);
    OriginsEnd(l, text, origin, |h|);
    ReadRunes(h, l);
    origin := origin + [|h|];
  }

  lemma {:induction false} ReadRunes(h: Bytes, l: Layout)
    requires SourceRead(h, l)
    ensures forall j :: 0 <= j < |l.runes| ==> l.source[j] < |h|
    ensures forall j :: 0 <= j < |l.runes| ==> l.runes[j] == if FormLen(h, l.source[j]) == 0 then 0xFFFD else FormRune(h, l.source[j])
  {
    hide FormLen, FormRune;
  }

  lemma {:induction false} LaidNothing(t: Fold.Table, h: Bytes)
    requires Fold.Valid(t)
    ensures SourceRead(h, Layout([], [0], [0])) && FoldedLaid(t, [], Layout([], [0], [0])) && Origins(Layout([], [0], [0]), [])
  {
  }

  lemma {:induction false} FoldedEnds(t: Fold.Table, text: Bytes, l: Layout)
    requires Fold.Valid(t) && FoldedLaid(t, text, l)
    ensures |l.folded| == |l.runes| + 1 && l.folded[|l.runes|] == |text| && forall j :: 0 <= j < |l.folded| ==> l.folded[j] <= |text|
  {
  }

  lemma {:induction false} OriginsEnd(l: Layout, text: Bytes, origin: seq<nat>, end: nat)
    requires |l.source| == |l.folded| == |l.runes| + 1 && Origins(l, origin) && |origin| == |text|
    requires forall j :: 0 <= j < |l.folded| ==> l.folded[j] <= |text|
    ensures Origins(l, origin + [end])
  {
    forall j, b | 0 <= j < |l.runes| && l.folded[j] <= b < l.folded[j + 1] ensures (origin + [end])[b] == l.source[j] {
      assert l.folded[j + 1] <= |text|;
    }
  }

  // ----- folded matches are matches

  lemma {:induction false} SubSplit(text: Bytes, j: nat, a: Bytes, b: Bytes)
    ensures StandsAt(text, j, a + b) <==> StandsAt(text, j, a) && StandsAt(text, j + |a|, b)
  {
    if j + |a| + |b| <= |text| {
      var k := j + |a|;
      assert text[j..k + |b|] == text[j..k] + text[k..k + |b|];
      if text[j..k + |b|] == a + b {
        assert text[j..k] == text[j..k + |b|][..|a|];
        assert text[k..k + |b|] == text[j..k + |b|][|a|..];
      }
    }
  }

  /** A place in the folded text is in the folding of some rune. */
  lemma {:induction false} Locate(t: Fold.Table, text: Bytes, l: Layout, j: nat, n: nat) returns (u: nat)
    requires Fold.Valid(t) && FoldedLaid(t, text, l) && n <= |l.runes| && j < l.folded[n]
    ensures u < n && l.folded[u] <= j < l.folded[u + 1]
    decreases n
  {
    if l.folded[n - 1] <= j {
      u := n - 1;
    } else {
      u := Locate(t, text, l, j, n - 1);
    }
  }

  /** What does not start like a continuation byte stands at a rune. */
  lemma {:induction false} SubBoundary(t: Fold.Table, text: Bytes, l: Layout, j: nat, key: Bytes) returns (u: nat)
    requires Fold.Valid(t) && FoldedLaid(t, text, l) && key != [] && !IsContinuation(key[0]) && StandsAt(text, j, key)
    ensures u < |l.runes| && l.folded[u] == j
  {
    u := Locate(t, text, l, j, |l.runes|);
    var from, to := l.folded[u], l.folded[u + 1];
    assert RuneLaid(t, text, l.runes[u], from, to);
    assert text[j] == text[from..to][j - from] && text[j] == text[j..j + |key|][0];
  }

  /** At a rune, one folded rune stands exactly when the keys agree. */
  lemma {:induction false} RuneStands(t: Fold.Table, text: Bytes, l: Layout, u: nat, r: int)
    requires Fold.Valid(t) && FoldedLaid(t, text, l) && u <= |l.runes| && IsScalar(r) && IsScalar(Key(t, r))
    ensures StandsAt(text, l.folded[u], Encode(Key(t, r))) <==> u < |l.runes| && Key(t, l.runes[u]) == Key(t, r)
    ensures u < |l.runes| && Key(t, l.runes[u]) == Key(t, r) ==> l.folded[u + 1] == l.folded[u] + |Encode(Key(t, r))|
  {
    hide Key, Encode, FormLen, FormRune;
    var at := l.folded[u];
    if u < |l.runes| {
      assert RuneLaid(t, text, l.runes[u], at, l.folded[u + 1]);
      DecodeEncode(text, at, Key(t, l.runes[u]));
      if StandsAt(text, at, Encode(Key(t, r))) {
        DecodeEncode(text, at, Key(t, r));
      }
    }
  }

  ghost predicate KeysAgree(t: Fold.Table, l: Layout, u: nat, runes: seq<int>)
    requires Fold.Valid(t)
  {
    u + |runes| <= |l.runes| && forall i :: 0 <= i < |runes| ==> Key(t, l.runes[u + i]) == Key(t, runes[i])
  }

  lemma {:induction false} KeysStep(t: Fold.Table, l: Layout, u: nat, runes: seq<int>)
    requires Fold.Valid(t) && runes != []
    ensures KeysAgree(t, l, u, runes) <==> u < |l.runes| && Key(t, l.runes[u]) == Key(t, runes[0]) && KeysAgree(t, l, u + 1, runes[1..])
  {
    if u < |l.runes| && Key(t, l.runes[u]) == Key(t, runes[0]) && KeysAgree(t, l, u + 1, runes[1..]) {
      forall i | 0 <= i < |runes| ensures Key(t, l.runes[u + i]) == Key(t, runes[i]) {
        if i > 0 {
          assert Key(t, l.runes[u + 1 + (i - 1)]) == Key(t, runes[1..][i - 1]);
        }
      }
    }
    if KeysAgree(t, l, u, runes) {
      assert Key(t, l.runes[u + 0]) == Key(t, runes[0]);
      forall i | 0 <= i < |runes[1..]| ensures Key(t, l.runes[u + 1 + i]) == Key(t, runes[1..][i]) {
        assert Key(t, l.runes[u + (i + 1)]) == Key(t, runes[i + 1]);
      }
    }
  }

  /** The folded pattern stands at a rune exactly when all keys agree from there. */
  lemma {:induction false} FoldedMatch(t: Fold.Table, text: Bytes, l: Layout, u: nat, runes: seq<int>)
    requires Fold.Valid(t) && FoldedLaid(t, text, l) && u <= |l.runes| && Scalars(runes)
    ensures StandsAt(text, l.folded[u], KeyBytes(t, runes)) <==> KeysAgree(t, l, u, runes)
    ensures KeysAgree(t, l, u, runes) ==> l.folded[u + |runes|] == l.folded[u] + |KeyBytes(t, runes)|
    decreases |runes|
  {
    hide Key, KeysAgree, Encode, RuneLaid;
    if runes == [] {
      AgreeNothing(t, l, u);
    } else {
      KeyScalar(t, runes[0]);
      var form, rest := Encode(Key(t, runes[0])), KeyBytes(t, runes[1..]);
      KeysStep(t, l, u, runes);
      SubSplit(text, l.folded[u], form, rest);
      RuneStands(t, text, l, u, runes[0]);
      if u < |l.runes| && Key(t, l.runes[u]) == Key(t, runes[0]) {
        FoldedMatch(t, text, l, u + 1, runes[1..]);
        AgreeBounds(t, l, u + 1, runes[1..]);
      }
    }
  }

  lemma {:induction false} AgreeNothing(t: Fold.Table, l: Layout, u: nat)
    requires Fold.Valid(t) && u <= |l.runes|
    ensures KeysAgree(t, l, u, [])
  {
  }

  lemma {:induction false} AgreeBounds(t: Fold.Table, l: Layout, u: nat, runes: seq<int>)
    requires Fold.Valid(t)
    ensures KeysAgree(t, l, u, runes) ==> u + |runes| <= |l.runes|
  {
  }

  /** The pattern matches the source at a rune exactly when all keys agree from there. */
  lemma {:induction false} SourceMatch(t: Fold.Table, h: Bytes, l: Layout, u: nat, a: Pattern, runes: seq<int>)
    requires Fold.Valid(t) && SourceLaid(h, l) && l.source[|l.runes|] == |h| && u <= |l.runes| && RunesOf(a, runes)
    ensures MatchEnd(Mode(false, t), h, l.source[u], a).Some? <==> KeysAgree(t, l, u, runes)
    ensures KeysAgree(t, l, u, runes) ==>
              u + |runes| <= |l.runes| && MatchEnd(Mode(false, t), h, l.source[u], a) == Some(l.source[u + |runes|])
    decreases |a|
  {
    hide Key, KeysAgree, FormLen, FormRune;
    var m := Mode(false, t);
    if a == [] {
      AgreeNothing(t, l, u);
    } else {
      KeysStep(t, l, u, runes);
      AgreeBounds(t, l, u, runes);
      if u < |l.runes| {
        SameKey(t, l.runes[u], runes[0]);
        SourceMatch(t, h, l, u + 1, a[1..], runes[1..]);
        SourceUnit(t, h, l, u);
      }
    }
  }

  lemma {:induction false} SourceUnit(t: Fold.Table, h: Bytes, l: Layout, u: nat)
    requires SourceLaid(h, l) && u < |l.runes|
    ensures l.source[u] < |h| && UnitAt(Mode(false, t), h, l.source[u]) == Rune(l.runes[u])
    ensures l.source[u + 1] == l.source[u] + SizeAt(Mode(false, t), h, l.source[u])
  {
  }

  // ----- the answer key, over any faithful projection

  /** `text` with `keys` stands for `h` with `ps`: a key stands in the text exactly where
      its pattern matches the source, and `origin` maps both ends. `bounds` are the
      places of the text that are unit boundaries of the source. */
  ghost predicate Projects(m: Mode, h: Bytes, ps: seq<Pattern>, text: Bytes, keys: seq<Bytes>, origin: seq<nat>, bounds: set<nat>) {
    && m.Valid() && |keys| == |ps| && |origin| == |text| + 1
    && (forall i :: 0 <= i < |keys| ==> keys[i] != [])
    && 0 in bounds && origin[0] == 0
    && (forall j :: j in bounds ==> j <= |text| && origin[j] <= |h| && Reaches(m, h, 0, origin[j]))
    && (forall j, k :: j in bounds && k in bounds && j < k ==> origin[j] < origin[k])
    && (forall j: nat, i: nat :: i < |keys| && StandsAt(text, j, keys[i]) ==> Stands(m, h, ps, keys, origin, bounds, j, i))
    && (forall q: nat, i: nat :: q <= |h| && Reaches(m, h, 0, q) && MatchesAt(m, h, q, ps, i) ==> Shown(text, keys, origin, bounds, q, i))
  }

  /** Key `i` at `j` is pattern `i` of the source. */
  ghost predicate Stands(m: Mode, h: Bytes, ps: seq<Pattern>, keys: seq<Bytes>, origin: seq<nat>, bounds: set<nat>, j: nat, i: nat)
    requires m.Valid()
  {
    && i < |keys| && i < |ps| && j in bounds && j + |keys[i]| in bounds && j + |keys[i]| < |origin| && origin[j] <= |h|
    && MatchEnd(m, h, origin[j], ps[i]) == Some(origin[j + |keys[i]|])
  }

  /** The match of pattern `i` at `q` is a key of the text. */
  ghost predicate Shown(text: Bytes, keys: seq<Bytes>, origin: seq<nat>, bounds: set<nat>, q: nat, i: nat) {
    i < |keys| && exists j: nat :: j in bounds && j < |origin| && origin[j] == q && StandsAt(text, j, keys[i])
  }

  /** The first occurrence of a key at or after `from`. */
  function IndexFrom(text: Bytes, key: Bytes, from: nat): (at: Option<nat>)
    requires from <= |text|
    ensures at.Some? ==> from <= at.value && StandsAt(text, at.value, key)
    ensures forall j: nat :: from <= j && StandsAt(text, j, key) ==> at.Some? && at.value <= j
    decreases |text| - from
  {
    if StandsAt(text, from, key) then Some(from)
    else if from == |text| then None
    else IndexFrom(text, key, from + 1)
  }

  /** `next` was found from some place not after `at`. */
  ghost predicate Cached(text: Bytes, key: Bytes, at: nat, next: Option<nat>) {
    exists from: nat :: from <= at && from <= |text| && next == IndexFrom(text, key, from)
  }

  /** A cached start that still lies ahead is the next one. */
  lemma {:induction false} CacheHolds(text: Bytes, key: Bytes, at: nat, next: Option<nat>)
    requires Cached(text, key, at, next) && at <= |text| && (next.Some? ==> at <= next.value)
    ensures next == IndexFrom(text, key, at)
  {
  }

  /** The least next start, lowest pattern first, among the first `n` patterns. */
  ghost predicate BestNext(next: seq<Option<nat>>, n: nat, best: Option<nat>) {
    && (best.Some? ==> best.value < n && best.value < |next| && next[best.value].Some?)
    && forall i: nat :: i < n && i < |next| && next[i].Some? ==>
         best.Some? && (next[best.value].value < next[i].value || (next[best.value].value == next[i].value && best.value <= i))
  }

  /** Search again for the patterns whose next start has been passed, and pick the best. */
  method Advance(text: Bytes, keys: seq<Bytes>, at: nat, next0: seq<Option<nat>>) returns (next: seq<Option<nat>>, best: Option<nat>)
    requires at <= |text| && |next0| == |keys| && forall i: nat :: i < |keys| ==> Cached(text, keys[i], at, next0[i])
    ensures |next| == |keys| && (forall i: nat :: i < |keys| ==> next[i] == IndexFrom(text, keys[i], at))
    ensures BestNext(next, |keys|, best)
  {
    hide StandsAt, IndexFrom;
    next, best := next0, None;
    for i := 0 to |keys|
      invariant |next| == |keys| && (forall k: nat :: i <= k < |keys| ==> next[k] == next0[k])
      invariant forall k: nat :: k < i ==> next[k] == IndexFrom(text, keys[k], at)
      invariant BestNext(next, i, best)
    {
      if next[i].Some? && next[i].value < at {
        next := next[i := IndexFrom(text, keys[i], at)];
      } else {
        CacheHolds(text, keys[i], at, next[i]);
      }
      if next[i].Some? && (best.None? || next[i].value < next[best.value].value) {
        best := Some(i);
      }
    }
  }

  /** What the search of the text knows at the cursor `at`: the best next start. */
  ghost predicate Looked(m: Mode, h: Bytes, ps: seq<Pattern>, text: Bytes, keys: seq<Bytes>, origin: seq<nat>, bounds: set<nat>,
                         at: nat, next: seq<Option<nat>>, best: Option<nat>, start: nat) {
    && Projects(m, h, ps, text, keys, origin, bounds) && at in bounds && at <= |text| && |next| == |keys|
    && (forall i: nat :: i < |keys| ==> next[i] == IndexFrom(text, keys[i], at)) && BestNext(next, |keys|, best)
    && (best.Some? ==> best.value < |keys| && next[best.value] == Some(start) && at <= start && Stands(m, h, ps, keys, origin, bounds, start, best.value))
  }

  lemma {:induction false} NoEarlier(m: Mode, h: Bytes, ps: seq<Pattern>, text: Bytes, keys: seq<Bytes>, origin: seq<nat>, bounds: set<nat>,
                                     at: nat, next: seq<Option<nat>>, best: Option<nat>, start: nat, q: nat, i: nat)
    requires Looked(m, h, ps, text, keys, origin, bounds, at, next, best, start)
    requires origin[at] <= q <= |h| && Reaches(m, h, origin[at], q) && MatchesAt(m, h, q, ps, i)
    ensures best.Some? && start < |origin| && (origin[start] < q || (origin[start] == q && best.value <= i))
  {
    hide MatchEnd, FindFrom, IndexFrom, StandsAt, MatchesAt, Reaches;
    ReachesTransitive(m, h, 0, origin[at], q);
    assert Shown(text, keys, origin, bounds, q, i);
    var j: nat :| j in bounds && j < |origin| && origin[j] == q && StandsAt(text, j, keys[i]);
    KeyAhead(text, keys[i], at, j);
    NextStands(m, h, ps, text, keys, origin, bounds, at, i);
    var b := next[i].value;
    assert start <= b <= j && start in bounds && b in bounds;
  }

  /** The best next start of the text is the next match of the source. */
  lemma {:induction false} BestIsFind(m: Mode, h: Bytes, ps: seq<Pattern>, text: Bytes, keys: seq<Bytes>, origin: seq<nat>, bounds: set<nat>,
                                      at: nat, next: seq<Option<nat>>, best: Option<nat>, start: nat)
    requires Looked(m, h, ps, text, keys, origin, bounds, at, next, best, start)
    ensures best.Some? ==> start < |origin|
    ensures FindFrom(m, h, ps, origin[at]) == if best.Some? then Some(Hit(best.value, origin[start])) else None
  {
    hide MatchEnd, FindFrom, IndexFrom, StandsAt, Reaches, BestNext;
    var a := origin[at];
    var last := if best.Some? then origin[start] else |h|;
    forall q | a <= q < last && Reaches(m, h, a, q) ensures BestAt(m, h, q, ps) == None {
      var b := BestAt(m, h, q, ps);
      if b.Some? {
        NoEarlier(m, h, ps, text, keys, origin, bounds, at, next, best, start, q, b.value);
        assert false;
      }
    }
    if best.Some? {
      FoundHere(m, h, ps, text, keys, origin, bounds, at, next, best, start);
      FindIs(m, h, ps, a, Hit(best.value, origin[start]));
    } else {
      NonContinuationIsBoundary(m, h, a, |h|);
      if BestAt(m, h, |h|, ps).Some? {
        NoEarlier(m, h, ps, text, keys, origin, bounds, at, next, best, start, |h|, BestAt(m, h, |h|, ps).value);
        assert false;
      }
      FindIsNone(m, h, ps, a);
    }
  }

  lemma {:induction false} FoundHere(m: Mode, h: Bytes, ps: seq<Pattern>, text: Bytes, keys: seq<Bytes>, origin: seq<nat>, bounds: set<nat>,
                                     at: nat, next: seq<Option<nat>>, best: Option<nat>, start: nat)
    requires Looked(m, h, ps, text, keys, origin, bounds, at, next, best, start) && best.Some?
    ensures start < |origin| && origin[at] <= origin[start] <= |h| && Reaches(m, h, origin[at], origin[start])
    ensures BestAt(m, h, origin[start], ps) == Some(best.value)
  {
    hide MatchEnd, FindFrom, IndexFrom, StandsAt, Reaches, BestNext;
    ReachesThrough(m, h, 0, origin[at], origin[start]);
    assert MatchesAt(m, h, origin[start], ps, best.value);
    var b := BestAt(m, h, origin[start], ps);
    NoEarlier(m, h, ps, text, keys, origin, bounds, at, next, best, start, origin[start], b.value);
  }

  lemma {:induction false} KeyAhead(text: Bytes, key: Bytes, at: nat, j: nat)
    requires at <= |text| && at <= j && StandsAt(text, j, key)
    ensures IndexFrom(text, key, at).Some? && IndexFrom(text, key, at).value <= j
  {
  }

  lemma {:induction false} NextStands(m: Mode, h: Bytes, ps: seq<Pattern>, text: Bytes, keys: seq<Bytes>, origin: seq<nat>, bounds: set<nat>, at: nat, i: nat)
    requires Projects(m, h, ps, text, keys, origin, bounds) && at in bounds && i < |keys| && at <= |text| && IndexFrom(text, keys[i], at).Some?
    ensures var b := IndexFrom(text, keys[i], at).value; at <= b && Stands(m, h, ps, keys, origin, bounds, b, i)
  {
  }

  /** The answer key: the greedy sequence, by repeated search of the text. */
  method AnswerKey(ghost m: Mode, ghost h: Bytes, ghost ps: seq<Pattern>, text: Bytes, keys: seq<Bytes>, origin: seq<nat>, ghost bounds: set<nat>)
    returns (hits: seq<Emit>)
    requires Projects(m, h, ps, text, keys, origin, bounds)
    ensures hits == EachFrom(m, h, ps, 0)
  {
    hide MatchEnd, FindFrom, EachFrom, IndexFrom, StandsAt, Cached, Stands;
    var next: seq<Option<nat>> := seq(|keys|, i requires 0 <= i < |keys| => IndexFrom(text, keys[i], 0));
    forall i: nat | i < |keys| ensures Cached(text, keys[i], 0, next[i]) {
      FreshCache(text, keys[i], 0, 0);
    }
    hits := [];
    var at: nat := 0;
    while true
      invariant at in bounds && at <= |text| && |next| == |keys|
      invariant forall i: nat :: i < |keys| ==> Cached(text, keys[i], at, next[i])
      invariant EachFrom(m, h, ps, 0) == hits + EachFrom(m, h, ps, origin[at])
      decreases |text| - at
    {
      var best;
      next, best := Advance(text, keys, at, next);
      if best.None? {
        BestIsFind(m, h, ps, text, keys, origin, bounds, at, next, best, 0);
        EachNone(m, h, ps, origin[at]);
        return;
      }
      var start := next[best.value].value;
      NextStands(m, h, ps, text, keys, origin, bounds, at, best.value);
      BestIsFind(m, h, ps, text, keys, origin, bounds, at, next, best, start);
      var end := start + |keys[best.value]|;
      var e := EmitBetween(origin, start, end, best.value);
      OneMore(m, h, ps, keys, origin, bounds, at, start, best.value, e);
      hits := hits + [e];
      forall i: nat | i < |keys| ensures Cached(text, keys[i], end, next[i]) {
        FreshCache(text, keys[i], at, end);
      }
      at := end;
    }
  }

  function EmitBetween(origin: seq<nat>, start: nat, end: nat, pattern: nat): Emit
    requires start < |origin| && end < |origin| && origin[start] <= origin[end]
  {
    Emit(pattern, origin[start], origin[end] - origin[start])
  }

  lemma {:induction false} FreshCache(text: Bytes, key: Bytes, from: nat, at: nat)
    requires from <= |text| && from <= at
    ensures Cached(text, key, at, IndexFrom(text, key, from))
  {
  }

  lemma {:induction false} OneMore(m: Mode, h: Bytes, ps: seq<Pattern>, keys: seq<Bytes>, origin: seq<nat>, bounds: set<nat>,
                                   at: nat, start: nat, i: nat, e: Emit)
    requires m.Valid() && at < |origin| && origin[at] <= |h| && Stands(m, h, ps, keys, origin, bounds, start, i)
    requires forall j, k :: j in bounds && k in bounds && j < k ==> j < |origin| && k < |origin| && origin[j] < origin[k]
    requires keys[i] != [] && FindFrom(m, h, ps, origin[at]) == Some(Hit(i, origin[start]))
    requires e == Emit(i, origin[start], origin[start + |keys[i]|] - origin[start])
    ensures EachFrom(m, h, ps, origin[at]) == [e] + EachFrom(m, h, ps, origin[start + |keys[i]|])
  {
    hide FindFrom;
    FindMatches(m, h, ps, origin[at]);
  }

  // ----- the folded projection

  /** A unit folded: a scalar as its key, an opaque byte as it is. */
  ghost function FoldedUnit(t: Fold.Table, u: CodeUnit): (s: Bytes)
    requires Fold.Valid(t) && (u.Rune? ==> IsScalar(u.rune))
    ensures s != []
  {
    match u
    case Raw(b) => [b]
    case Rune(r) =>
      KeyScalar(t, r);
      Encode(Key(t, r))
  }

  ghost function FoldedUnits(t: Fold.Table, us: Pattern): (s: Bytes)
    requires Fold.Valid(t) && Encodable(us)
    ensures us != [] ==> s != []
  {
    if us == [] then [] else FoldedUnits(t, us[..|us| - 1]) + FoldedUnit(t, us[|us| - 1])
  }

  lemma {:induction false} FoldedFirst(t: Fold.Table, us: Pattern)
    requires Fold.Valid(t) && Encodable(us) && us != []
    ensures FoldedUnits(t, us) == FoldedUnit(t, us[0]) + FoldedUnits(t, us[1..])
  {
    hide FoldedUnit;
    if |us| > 1 {
      var front := us[..|us| - 1];
      FoldedFirst(t, front);
      assert us[1..][..|us| - 2] == front[1..];
    } else {
      assert us[..0] == [] && us[1..] == [];
    }
  }

  /** Without opaque bytes, folding a pattern is folding its runes. */
  lemma {:induction false} FoldedRunes(t: Fold.Table, us: Pattern, runes: seq<int>)
    requires Fold.Valid(t) && Encodable(us) && RunesOf(us, runes) && Scalars(runes)
    ensures FoldedUnits(t, us) == KeyBytes(t, runes)
  {
    hide Key, Encode;
    if us != [] {
      FoldedFirst(t, us);
      FoldedRunes(t, us[1..], runes[1..]);
    }
  }

  /** Rewrite every rune as its key and keep malformed bytes as they are. */
  method FoldString(t: Fold.Table, s: Bytes) returns (key: Bytes)
    requires Fold.Valid(t)
    ensures Encodable(Units(Mode(false, t), s)) && key == FoldedUnits(t, Units(Mode(false, t), s))
  {
    hide Key, Encode, FormLen, FormRune, FoldedUnits;
    var m := Mode(false, t);
    ghost var us := Units(m, s);
    UnitsEncodable(m, s, 0);
    assert us[0..] == us && us[..0] == [];
    FoldedNothing(t);
    key := [];
    var at: nat := 0;
    ghost var k := 0;
    while at < |s|
      invariant at <= |s| && 0 <= k <= |us| && us[k..] == Units(m, s, at) && key == FoldedUnits(t, us[..k])
      decreases |s| - at
    {
      assert us[k] == us[k..][0] == UnitAt(m, s, at) && us[k + 1..] == us[k..][1..];
      FoldedNext(t, us, k);
      if FormLen(s, at) == 0 {
        key := key + [s[at]];
      } else {
        KeyScalar(t, FormRune(s, at));
        var r := FoldKey(t, FormRune(s, at));
        key := key + Encode(r);
      }
      at, k := at + SizeAt(m, s, at), k + 1;
    }
    assert us[..k] == us;
  }

  lemma {:induction false} FoldedNothing(t: Fold.Table)
    requires Fold.Valid(t)
    ensures FoldedUnits(t, []) == []
  {
  }

  lemma {:induction false} FoldedNext(t: Fold.Table, us: Pattern, k: nat)
    requires Fold.Valid(t) && Encodable(us) && k < |us|
    ensures FoldedUnits(t, us[..k + 1]) == FoldedUnits(t, us[..k]) + FoldedUnit(t, us[k])
  {
    assert us[..k + 1][..k] == us[..k];
  }

  // ----- folding keeps strings well-formed, and no others

  lemma {:induction false} FormedSuffix(a: Bytes, b: Bytes, at: nat)
    requires at <= |b|
    ensures WellFormed(a + b, |a| + at) <==> WellFormed(b, at)
    decreases |b| - at
  {
    hide FormLen;
    if at < |b| {
      assert (a + b)[|a|..] == b;
      LenSuffix(a + b, |a|, at);
      if FormLen(b, at) > 0 {
        FormedSuffix(a, b, at + FormLen(b, at));
      }
    }
  }

  lemma {:induction false} LenSuffix(s: Bytes, k: nat, at: nat)
    requires k <= |s| && at < |s| - k
    ensures FormLen(s[k..], at) == FormLen(s, k + at)
  {
  }

  /** The string from `at` on, folded. */
  ghost function FoldedFrom(t: Fold.Table, s: Bytes, at: nat): (f: Bytes)
    requires Fold.Valid(t) && at <= |s|
    ensures at < |s| ==> f != []
  {
    UnitsEncodable(Mode(false, t), s, at);
    FoldedUnits(t, Units(Mode(false, t), s, at))
  }

  lemma {:induction false} FoldedStep(t: Fold.Table, s: Bytes, at: nat)
    requires Fold.Valid(t) && at < |s|
    ensures var m := Mode(false, t); FoldedFrom(t, s, at) == FoldedUnit(t, UnitAt(m, s, at)) + FoldedFrom(t, s, at + SizeAt(m, s, at))
  {
    hide FormLen, FormRune, FoldedUnits, FoldedUnit;
    var m := Mode(false, t);
    UnitsEncodable(m, s, at);
    FoldedFirst(t, Units(m, s, at));
  }

  lemma {:induction false} FoldedHead(t: Fold.Table, u: CodeUnit)
    requires Fold.Valid(t) && (u.Rune? ==> IsScalar(u.rune))
    ensures u.Rune? ==> !IsContinuation(FoldedUnit(t, u)[0])
  {
    if u.Rune? {
      KeyScalar(t, u.rune);
    }
  }

  /** Continuation bytes that lead a folded string are opaque bytes of the string itself. */
  lemma {:induction false} FoldedTail(t: Fold.Table, s: Bytes, at: nat, n: nat)
    requires Fold.Valid(t) && at <= |s| && n <= |FoldedFrom(t, s, at)| && forall k :: 0 <= k < n ==> IsContinuation(FoldedFrom(t, s, at)[k])
    ensures at + n <= |s| && s[at..at + n] == FoldedFrom(t, s, at)[..n]
    decreases n
  {
    hide FormLen, FormRune, FoldedFrom, Key;
    if n > 0 {
      if at == |s| {
        FoldedEnd(t, s);
        assert false;
      } else {
        FoldedStep(t, s, at);
        var u := UnitAt(Mode(false, t), s, at);
        FoldedHead(t, u);
        assert FoldedFrom(t, s, at)[0] == FoldedUnit(t, u)[0];
        var rest := FoldedFrom(t, s, at + 1);
        assert FoldedFrom(t, s, at) == [s[at]] + rest;
        forall k | 0 <= k < n - 1 ensures IsContinuation(rest[k]) {
          assert rest[k] == FoldedFrom(t, s, at)[k + 1];
        }
        FoldedTail(t, s, at + 1, n - 1);
        assert s[at..at + n] == [s[at]] + s[at + 1..at + 1 + (n - 1)];
      }
    }
  }

  lemma {:induction false} FoldedEnd(t: Fold.Table, s: Bytes)
    requires Fold.Valid(t)
    ensures FoldedFrom(t, s, |s|) == []
  {
  }

  /** What a malformed byte folds to is malformed. */
  lemma {:induction false} StillMalformed(t: Fold.Table, s: Bytes, at: nat)
    requires Fold.Valid(t) && at < |s| && FormLen(s, at) == 0
    ensures FormLen(FoldedFrom(t, s, at), 0) == 0
  {
    hide FormLen, FormRune, FoldedFrom, Encode;
    FoldedStep(t, s, at);
    var f, rest := FoldedFrom(t, s, at), FoldedFrom(t, s, at + 1);
    assert f == [s[at]] + rest;
    var n := FormLen(f, 0);
    if n > 0 {
      EncodeDecode(f, 0);
      var r := FormRune(f, 0);
      forall k | 0 <= k < n - 1 ensures IsContinuation(rest[k]) {
        assert rest[k] == f[k + 1] == f[0..n][k + 1] == Encode(r)[k + 1];
      }
      FoldedTail(t, s, at + 1, n - 1);
      assert s[at..at + n] == [s[at]] + s[at + 1..at + 1 + (n - 1)] == f[0..n];
      DecodeEncode(s, at, r);
      assert false;
    }
  }

  /** A string is well-formed exactly when its folded form is. */
  lemma {:induction false} FoldedFormed(t: Fold.Table, s: Bytes, at: nat)
    requires Fold.Valid(t) && at <= |s|
    ensures WellFormed(FoldedFrom(t, s, at), 0) <==> WellFormed(s, at)
    decreases |s| - at
  {
    hide FormLen, FormRune, FoldedFrom, Encode, Key;
    if at == |s| {
      FoldedEnd(t, s);
    } else if FormLen(s, at) == 0 {
      StillMalformed(t, s, at);
    } else {
      var r, next := FormRune(s, at), at + FormLen(s, at);
      FoldedStep(t, s, at);
      KeyScalar(t, r);
      var form, rest := Encode(Key(t, r)), FoldedFrom(t, s, next);
      assert FoldedFrom(t, s, at) == form + rest;
      assert (form + rest)[0..0 + RuneLen(Key(t, r))] == form;
      DecodeEncode(form + rest, 0, Key(t, r));
      FormedSuffix(form, rest, 0);
      FoldedFormed(t, s, next);
    }
  }

  lemma {:induction false} NoRunes()
    ensures RunesOf([], []) && Scalars([])
  {
  }

  lemma {:induction false} RuneFirst(us: Pattern, runes: seq<int>, r: int)
    requires RunesOf(us, runes) && Scalars(runes) && IsScalar(r)
    ensures RunesOf([Rune(r)] + us, [r] + runes) && Scalars([r] + runes)
  {
  }

  /** The runes of a well-formed string. */
  lemma {:induction false} FormedRunes(t: Fold.Table, s: Bytes, at: nat) returns (runes: seq<int>)
    requires at <= |s| && WellFormed(s, at)
    ensures RunesOf(Units(Mode(false, t), s, at), runes) && Scalars(runes)
    decreases |s| - at
  {
    hide FormLen, FormRune, RunesOf, Scalars;
    NoRunes();
    if at == |s| {
      runes := [];
    } else {
      var rest := FormedRunes(t, s, at + FormLen(s, at));
      runes := [FormRune(s, at)] + rest;
      RuneFirst(Units(Mode(false, t), s, at + FormLen(s, at)), rest, FormRune(s, at));
    }
  }

  /** The key folds the pattern. */
  ghost predicate KeyOf(t: Fold.Table, a: Pattern, key: Bytes)
    requires Fold.Valid(t)
  {
    exists runes :: RunesOf(a, runes) && Scalars(runes) && key == KeyBytes(t, runes) && runes != []
  }

  ghost function Bounds(l: Layout): set<nat> {
    set u | 0 <= u < |l.folded| :: l.folded[u]
  }

  /** Everything the two halves of a layout say together. */
  ghost predicate Laid(t: Fold.Table, h: Bytes, text: Bytes, origin: seq<nat>, l: Layout) {
    && Fold.Valid(t) && SourceLaid(h, l) && FoldedLaid(t, text, l) && l.source[|l.runes|] == |h|
    && |origin| == |text| + 1 && origin[|text|] == |h| && Origins(l, origin)
  }

  lemma {:induction false} OriginAt(t: Fold.Table, h: Bytes, text: Bytes, origin: seq<nat>, l: Layout, u: nat)
    requires Laid(t, h, text, origin, l) && u <= |l.runes|
    ensures l.folded[u] <= |text| && origin[l.folded[u]] == l.source[u] <= |h|
  {
    hide Key, FormLen, FormRune, Encode;
    if u < |l.runes| {
      assert RuneLaid(t, text, l.runes[u], l.folded[u], l.folded[u + 1]);
      assert l.folded[u] <= l.folded[u] < l.folded[u + 1];
    }
  }

  /** Both offsets grow from rune to rune. */
  lemma {:induction false} OffsetsGrow(t: Fold.Table, h: Bytes, text: Bytes, origin: seq<nat>, l: Layout, u: nat, v: nat)
    requires Laid(t, h, text, origin, l) && u < v <= |l.runes|
    ensures l.folded[u] < l.folded[v] && l.source[u] < l.source[v]
    decreases v - u
  {
    hide Key, FormLen, FormRune, Encode;
    assert RuneLaid(t, text, l.runes[u], l.folded[u], l.folded[u + 1]);
    if u + 1 < v {
      OffsetsGrow(t, h, text, origin, l, u + 1, v);
    }
  }

  lemma {:induction false} SourceReached(t: Fold.Table, h: Bytes, l: Layout, u: nat)
    requires SourceLaid(h, l) && u <= |l.runes|
    ensures l.source[u] <= |h| && Reaches(Mode(false, t), h, 0, l.source[u])
    decreases u
  {
    hide FormLen, FormRune;
    if u > 0 {
      SourceReached(t, h, l, u - 1);
      SourceUnit(t, h, l, u - 1);
      assert l.source[u - 1 + 1] == l.source[u];
      ReachesTransitive(Mode(false, t), h, 0, l.source[u - 1], l.source[u]);
    }
  }

  lemma {:induction false} ReachedSource(t: Fold.Table, h: Bytes, l: Layout, u: nat, q: nat) returns (v: nat)
    requires SourceLaid(h, l) && l.source[|l.runes|] == |h| && u <= |l.runes| && q <= |h| && Reaches(Mode(false, t), h, l.source[u], q)
    ensures v <= |l.runes| && l.source[v] == q
    decreases |l.runes| - u
  {
    hide FormLen, FormRune;
    if l.source[u] == q {
      v := u;
    } else {
      SourceUnit(t, h, l, u);
      v := ReachedSource(t, h, l, u + 1, q);
    }
  }

  lemma {:induction false} FoldedStands(t: Fold.Table, h: Bytes, ps: seq<Pattern>, text: Bytes, keys: seq<Bytes>, origin: seq<nat>, l: Layout, j: nat, i: nat)
    requires Laid(t, h, text, origin, l) && |keys| == |ps| && i < |keys| && KeyOf(t, ps[i], keys[i]) && StandsAt(text, j, keys[i])
    ensures Stands(Mode(false, t), h, ps, keys, origin, Bounds(l), j, i)
  {
    hide Key, FormLen, FormRune, MatchEnd, KeysAgree, SourceLaid, FoldedLaid, Origins, Bounds, KeyBytes, Encode;
    var runes :| RunesOf(ps[i], runes) && Scalars(runes) && keys[i] == KeyBytes(t, runes) && runes != [];
    var u := SubBoundary(t, text, l, j, keys[i]);
    FoldedMatch(t, text, l, u, runes);
    SourceMatch(t, h, l, u, ps[i], runes);
    OriginAt(t, h, text, origin, l, u);
    OriginAt(t, h, text, origin, l, u + |runes|);
    InBounds(t, text, l, u);
    InBounds(t, text, l, u + |runes|);
  }

  lemma {:induction false} InBounds(t: Fold.Table, text: Bytes, l: Layout, u: nat)
    requires Fold.Valid(t) && FoldedLaid(t, text, l) && u <= |l.runes|
    ensures l.folded[u] in Bounds(l)
  {
  }

  lemma {:induction false} FoldedShown(t: Fold.Table, h: Bytes, ps: seq<Pattern>, text: Bytes, keys: seq<Bytes>, origin: seq<nat>, l: Layout, q: nat, i: nat)
    requires Laid(t, h, text, origin, l) && |keys| == |ps| && i < |keys| && KeyOf(t, ps[i], keys[i])
    requires q <= |h| && Reaches(Mode(false, t), h, 0, q) && MatchesAt(Mode(false, t), h, q, ps, i)
    ensures Shown(text, keys, origin, Bounds(l), q, i)
  {
    hide Key, FormLen, FormRune, MatchEnd, KeysAgree, FoldedLaid, Origins, StandsAt, Reaches;
    var runes :| RunesOf(ps[i], runes) && Scalars(runes) && keys[i] == KeyBytes(t, runes) && runes != [];
    var u := ReachedSource(t, h, l, 0, q);
    SourceMatch(t, h, l, u, ps[i], runes);
    FoldedMatch(t, text, l, u, runes);
    OriginAt(t, h, text, origin, l, u);
    InBounds(t, text, l, u);
  }

  lemma {:induction false} BoundOf(l: Layout, j: nat) returns (u: nat)
    requires j in Bounds(l)
    ensures u < |l.folded| && l.folded[u] == j
  {
    u :| 0 <= u < |l.folded| && l.folded[u] == j;
  }

  lemma {:induction false} FoldedProjects(t: Fold.Table, h: Bytes, ps: seq<Pattern>, text: Bytes, keys: seq<Bytes>, origin: seq<nat>, l: Layout)
    requires Laid(t, h, text, origin, l) && |keys| == |ps| && forall i :: 0 <= i < |keys| ==> KeyOf(t, ps[i], keys[i])
    ensures Projects(Mode(false, t), h, ps, text, keys, origin, Bounds(l))
  {
    hide Key, FormLen, FormRune, MatchEnd, Origins, StandsAt, Reaches, Bounds, KeyOf, Stands, Shown, RuneLaid, MatchesAt;
    var m, bounds := Mode(false, t), Bounds(l);
    OriginAt(t, h, text, origin, l, 0);
    InBounds(t, text, l, 0);
    forall i | 0 <= i < |keys| ensures keys[i] != [] {
      KeyNonempty(t, ps[i], keys[i]);
    }
    forall j | j in bounds ensures j <= |text| && origin[j] <= |h| && Reaches(m, h, 0, origin[j]) {
      var u := BoundOf(l, j);
      OriginAt(t, h, text, origin, l, u);
      SourceReached(t, h, l, u);
    }
    forall j, k | j in bounds && k in bounds && j < k ensures origin[j] < origin[k] {
      var u := BoundOf(l, j);
      var v := BoundOf(l, k);
      OriginAt(t, h, text, origin, l, u);
      OriginAt(t, h, text, origin, l, v);
      if v < u {
        OffsetsGrow(t, h, text, origin, l, v, u);
      } else if u < v {
        OffsetsGrow(t, h, text, origin, l, u, v);
      }
    }
    forall j: nat, i: nat | i < |keys| && StandsAt(text, j, keys[i]) ensures Stands(m, h, ps, keys, origin, bounds, j, i) {
      FoldedStands(t, h, ps, text, keys, origin, l, j, i);
    }
    forall q: nat, i: nat | q <= |h| && Reaches(m, h, 0, q) && MatchesAt(m, h, q, ps, i) ensures Shown(text, keys, origin, bounds, q, i) {
      MatchesIndex(m, h, q, ps, i);
      FoldedShown(t, h, ps, text, keys, origin, l, q, i);
    }
  }

  lemma {:induction false} MatchesIndex(m: Mode, h: Bytes, q: nat, ps: seq<Pattern>, i: nat)
    requires m.Valid() && q <= |h| && MatchesAt(m, h, q, ps, i)
    ensures i < |ps|
  {
  }

  lemma {:induction false} KeyNonempty(t: Fold.Table, a: Pattern, key: Bytes)
    requires Fold.Valid(t) && KeyOf(t, a, key)
    ensures key != []
  {
  }

  // ----- the exact projection

  /** Matching bytes exactly is finding the substring. */
  lemma {:induction false} ExactMatch(m: Mode, h: Bytes, q: nat, s: Bytes, at: nat)
    requires m.Valid() && m.exact && q <= |h| && at <= |s|
    ensures MatchEnd(m, h, q, Units(m, s, at)) == if StandsAt(h, q, s[at..]) then Some(q + (|s| - at)) else None
    decreases |s| - at
  {
    if at < |s| {
      assert s[at..] == [s[at]] + s[at + 1..];
      SubSplit(h, q, [s[at]], s[at + 1..]);
      assert Units(m, s, at)[1..] == Units(m, s, at + 1);
      if q < |h| {
        assert h[q..q + 1] == [h[q]];
        ExactMatch(m, h, q + 1, s, at + 1);
      }
    }
  }

  lemma {:induction false} ExactReaches(m: Mode, h: Bytes, a: nat, q: nat)
    requires m.exact && a <= q <= |h|
    ensures Reaches(m, h, a, q)
    decreases q - a
  {
    if a < q {
      ExactReaches(m, h, a + 1, q);
    }
  }

  ghost function AllPlaces(n: nat): (places: set<nat>)
    ensures forall j: nat :: j in places <==> j <= n
  {
    if n == 0 then {0} else AllPlaces(n - 1) + {n}
  }

  lemma {:induction false} ExactProjects(t: Fold.Table, h: Bytes, patterns: seq<Bytes>, origin: seq<nat>)
    requires Fold.Valid(t) && (forall i :: 0 <= i < |patterns| ==> patterns[i] != [])
    requires |origin| == |h| + 1 && forall j :: 0 <= j < |origin| ==> origin[j] == j
    ensures Projects(Mode(true, t), h, AllUnits(Mode(true, t), patterns), h, patterns, origin, AllPlaces(|h|))
  {
    hide StandsAt, Reaches, MatchEnd;
    var m := Mode(true, t);
    var ps := AllUnits(m, patterns);
    forall j: nat | j <= |h| ensures Reaches(m, h, 0, j) {
      ExactReaches(m, h, 0, j);
    }
    forall j: nat, i: nat | i < |patterns| && StandsAt(h, j, patterns[i]) ensures Stands(m, h, ps, patterns, origin, AllPlaces(|h|), j, i) {
      SubBounds(h, j, patterns[i]);
      ExactMatch(m, h, j, patterns[i], 0);
      assert patterns[i][0..] == patterns[i];
    }
    forall q: nat, i: nat | q <= |h| && MatchesAt(m, h, q, ps, i) ensures Shown(h, patterns, origin, AllPlaces(|h|), q, i) {
      ExactMatch(m, h, q, patterns[i], 0);
      assert patterns[i][0..] == patterns[i];
      assert StandsAt(h, q, patterns[i]);
    }
  }

  lemma {:induction false} SubBounds(text: Bytes, j: nat, key: Bytes)
    requires StandsAt(text, j, key)
    ensures j + |key| <= |text|
  {
  }

  // ----- the board's answer key

  ghost predicate Acceptable(h: Bytes, patterns: seq<Bytes>) {
    WellFormed(h, 0) && forall i :: 0 <= i < |patterns| ==> patterns[i] != [] && WellFormed(patterns[i], 0)
  }

  /** The folded form of a nonempty well-formed pattern is its key; that of any other is
      empty or malformed. */
  lemma {:induction false} FoldedKey(t: Fold.Table, s: Bytes, key: Bytes)
    requires Fold.Valid(t) && Encodable(Units(Mode(false, t), s)) && key == FoldedUnits(t, Units(Mode(false, t), s))
    ensures s != [] && WellFormed(s, 0) <==> key != [] && WellFormed(key, 0)
    ensures s != [] && WellFormed(s, 0) ==> KeyOf(t, Units(Mode(false, t), s), key)
  {
    hide FormLen, FormRune, KeyBytes, FoldedUnits, WellFormed;
    FoldedFormed(t, s, 0);
    if s == [] {
      FoldedNothing(t);
    } else if WellFormed(s, 0) {
      SomeUnits(Mode(false, t), s);
      var runes := FormedRunes(t, s, 0);
      FoldedRunes(t, Units(Mode(false, t), s), runes);
    }
  }

  /** Fold every pattern; refuse one whose folded form is empty or malformed. */
  method FoldKeys(t: Fold.Table, patterns: seq<Bytes>) returns (keys: Option<seq<Bytes>>)
    requires Fold.Valid(t)
    ensures keys.Some? <==> forall i :: 0 <= i < |patterns| ==> patterns[i] != [] && WellFormed(patterns[i], 0)
    ensures keys.Some? ==> |keys.value| == |patterns| && forall i :: 0 <= i < |patterns| ==> KeyOf(t, Units(Mode(false, t), patterns[i]), keys.value[i])
  {
    hide KeyBytes, WellFormed, Units, FoldedUnits;
    var out: seq<Bytes> := [];
    for i := 0 to |patterns|
      invariant |out| == i && forall k :: 0 <= k < i ==> patterns[k] != [] && WellFormed(patterns[k], 0)
      invariant forall k :: 0 <= k < i ==> KeyOf(t, Units(Mode(false, t), patterns[k]), out[k])
    {
      var key := FoldString(t, patterns[i]);
      var valid := ValidString(key);
      FoldedKey(t, patterns[i], key);
      if key == [] || !valid {
        return None;
      }
      out := out + [key];
    }
    return Some(out);
  }

  /** The board's answer key. It refuses malformed input and empty patterns. */
  method Matches(t: Fold.Table, h: Bytes, patterns: seq<Bytes>, sensitive: bool) returns (hits: Option<seq<Emit>>)
    requires Fold.Valid(t)
    ensures hits.Some? <==> Acceptable(h, patterns)
    ensures hits.Some? ==> hits.value == EachFrom(Mode(sensitive, t), h, AllUnits(Mode(sensitive, t), patterns), 0)
  {
    hide Projects, EachFrom, WellFormed, KeyOf, SourceLaid, FoldedLaid, Origins;
    if sensitive {
      var ok := ValidString(h);
      for i := 0 to |patterns|
        invariant ok <==> WellFormed(h, 0) && forall k :: 0 <= k < i ==> patterns[k] != [] && WellFormed(patterns[k], 0)
      {
        var valid := ValidString(patterns[i]);
        ok := ok && valid && patterns[i] != [];
      }
      if !ok {
        return None;
      }
      var origin: seq<nat> := seq(|h| + 1, i requires 0 <= i => i);
      ExactProjects(t, h, patterns, origin);
      var found := AnswerKey(Mode(true, t), h, AllUnits(Mode(true, t), patterns), h, patterns, origin, AllPlaces(|h|));
      return Some(found);
    }
    var wellFormed := ValidString(h);
    if !wellFormed {
      return None;
    }
    var text, origin;
    ghost var l;
    text, origin, l := FoldWithOrigin(t, h);
    ReadLaid(h, l);
    var keys := FoldKeys(t, patterns);
    if keys.None? {
      return None;
    }
    FoldedProjects(t, h, AllUnits(Mode(false, t), patterns), text, keys.value, origin, l);
    var found := AnswerKey(Mode(false, t), h, AllUnits(Mode(false, t), patterns), text, keys.value, origin, Bounds(l));
    return Some(found);
  }

  // ----- the merge of pending starts

  method Pick(next: seq<Option<nat>>) returns (best: Option<nat>)
    ensures BestNext(next, |next|, best)
  {
    best := None;
    for i := 0 to |next|
      invariant BestNext(next, i, best)
    {
      if next[i].Some? && (best.None? || next[i].value < next[best.value].value || (next[i].value == next[best.value].value && i < best.value)) {
        best := Some(i);
      }
    }
  }

  /** Search again for every pattern whose pending start lies before the cursor. */
  method Refresh(text: Bytes, keys: seq<Bytes>, from: nat, cursor: nat, next0: seq<Option<nat>>) returns (next: seq<Option<nat>>)
    requires from <= cursor <= |text| && |next0| == |keys| && forall i: nat :: i < |keys| ==> next0[i] == IndexFrom(text, keys[i], from)
    ensures |next| == |keys| && forall i: nat :: i < |keys| ==> next[i] == IndexFrom(text, keys[i], cursor)
  {
    hide StandsAt, IndexFrom, Cached;
    next := next0;
    for i := 0 to |keys|
      invariant |next| == |keys| && (forall k: nat :: i <= k < |keys| ==> next[k] == next0[k])
      invariant forall k: nat :: k < i ==> next[k] == IndexFrom(text, keys[k], cursor)
    {
      if next[i].Some? && next[i].value < cursor {
        next := next[i := IndexFrom(text, keys[i], cursor)];
      } else {
        FreshCache(text, keys[i], from, cursor);
        CacheHolds(text, keys[i], cursor, next[i]);
      }
    }
  }

  /** Merge the pending starts of all patterns, calling `goOn` with each hit in turn. */
  method PendingEach(ghost m: Mode, ghost h: Bytes, ghost ps: seq<Pattern>, text: Bytes, keys: seq<Bytes>, origin: seq<nat>, ghost bounds: set<nat>,
                     goOn: seq<Emit> -> bool) returns (emitted: seq<Emit>, done: bool)
    requires Projects(m, h, ps, text, keys, origin, bounds)
    ensures Enumerates(EachFrom(m, h, ps, 0), goOn, emitted, done)
  {
    hide MatchEnd, FindFrom, EachFrom, IndexFrom, StandsAt, Stands, Enumerates, Emitting;
    ghost var all := EachFrom(m, h, ps, 0);
    var next: seq<Option<nat>> := seq(|keys|, i requires 0 <= i < |keys| => IndexFrom(text, keys[i], 0));
    emitted := [];
    EmitNothing(all, goOn);
    var cursor: nat := 0;
    while true
      invariant cursor in bounds && cursor <= |text| && |next| == |keys|
      invariant forall i: nat :: i < |keys| ==> next[i] == IndexFrom(text, keys[i], cursor)
      invariant Emitting(all, goOn, emitted, EachFrom(m, h, ps, origin[cursor]))
      decreases |text| - cursor
    {
      var best := Pick(next);
      if best.None? {
        BestIsFind(m, h, ps, text, keys, origin, bounds, cursor, next, best, 0);
        EachNone(m, h, ps, origin[cursor]);
        EmitDone(all, goOn, emitted);
        return emitted, true;
      }
      var start := next[best.value].value;
      NextStands(m, h, ps, text, keys, origin, bounds, cursor, best.value);
      BestIsFind(m, h, ps, text, keys, origin, bounds, cursor, next, best, start);
      var end := start + |keys[best.value]|;
      var e := EmitBetween(origin, start, end, best.value);
      OneMore(m, h, ps, keys, origin, bounds, cursor, start, best.value, e);
      EmitMore(all, goOn, emitted, e, EachFrom(m, h, ps, origin[end]));
      emitted := emitted + [e];
      if !goOn(emitted) {
        return emitted, false;
      }
      next := Refresh(text, keys, cursor, end, next);
      cursor := end;
    }
  }

  /** The needles of a view: the keys of the patterns, when there are some and all are
      nonempty and well-formed. */
  method NewVelozView(t: Fold.Table, patterns: seq<Bytes>) returns (needles: Option<seq<Bytes>>)
    requires Fold.Valid(t)
    ensures needles.Some? <==> patterns != [] && forall i :: 0 <= i < |patterns| ==> patterns[i] != [] && WellFormed(patterns[i], 0)
    ensures needles.Some? ==> Needles(t, patterns, needles.value)
  {
    hide KeyBytes, WellFormed, Units, FoldedUnits;
    if patterns == [] {
      return None;
    }
    needles := FoldKeys(t, patterns);
  }

  ghost predicate Needles(t: Fold.Table, patterns: seq<Bytes>, needles: seq<Bytes>)
    requires Fold.Valid(t)
  {
    |needles| == |patterns| && forall i :: 0 <= i < |patterns| ==> KeyOf(t, Units(Mode(false, t), patterns[i]), needles[i])
  }

  /** The earliest hit over folded text, projected back to the source. */
  method VelozFind(t: Fold.Table, h: Bytes, patterns: seq<Bytes>, needles: seq<Bytes>) returns (hit: Option<Emit>)
    requires Fold.Valid(t) && Needles(t, patterns, needles) && h != [] && WellFormed(h, 0)
    ensures var m, ps := Mode(false, t), AllUnits(Mode(false, t), patterns);
            hit == if EachFrom(m, h, ps, 0) == [] then None else Some(EachFrom(m, h, ps, 0)[0])
  {
    hide Projects, EachFrom, WellFormed, KeyOf, SourceLaid, FoldedLaid, Origins, MatchEnd, FindFrom, IndexFrom, StandsAt, Stands;
    var text, origin;
    ghost var l;
    text, origin, l := FoldWithOrigin(t, h);
    ReadLaid(h, l);
    ghost var m, ps, bounds := Mode(false, t), AllUnits(Mode(false, t), patterns), Bounds(l);
    FoldedProjects(t, h, ps, text, needles, origin, l);
    var next: seq<Option<nat>> := seq(|needles|, i requires 0 <= i < |needles| => IndexFrom(text, needles[i], 0));
    hit := FirstOf(m, h, ps, text, needles, origin, bounds, next);
  }

  method FirstOf(ghost m: Mode, ghost h: Bytes, ghost ps: seq<Pattern>, text: Bytes, keys: seq<Bytes>, origin: seq<nat>, ghost bounds: set<nat>,
                 next: seq<Option<nat>>) returns (hit: Option<Emit>)
    requires Projects(m, h, ps, text, keys, origin, bounds)
    requires |next| == |keys| && forall i: nat :: i < |keys| ==> next[i] == IndexFrom(text, keys[i], 0)
    ensures hit == if EachFrom(m, h, ps, 0) == [] then None else Some(EachFrom(m, h, ps, 0)[0])
  {
    hide MatchEnd, FindFrom, EachFrom, IndexFrom, StandsAt, Stands;
    var best := Pick(next);
    if best.None? {
      BestIsFind(m, h, ps, text, keys, origin, bounds, 0, next, best, 0);
      EachNone(m, h, ps, 0);
      return None;
    }
    var start := next[best.value].value;
    NextStands(m, h, ps, text, keys, origin, bounds, 0, best.value);
    BestIsFind(m, h, ps, text, keys, origin, bounds, 0, next, best, start);
    var end := start + |keys[best.value]|;
    var e := EmitBetween(origin, start, end, best.value);
    OneMore(m, h, ps, keys, origin, bounds, 0, start, best.value, e);
    return Some(e);
  }

  /** Enumeration over folded text, projected back to the source. A view without needles
      has nothing to report; otherwise the haystack must be nonempty and well-formed. */
  method VelozEach(t: Fold.Table, h: Bytes, patterns: seq<Bytes>, needles: seq<Bytes>, goOn: seq<Emit> -> bool) returns (emitted: seq<Emit>, done: bool)
    requires Fold.Valid(t) && Needles(t, patterns, needles) && (needles != [] ==> h != [] && WellFormed(h, 0))
    ensures Enumerates(EachFrom(Mode(false, t), h, AllUnits(Mode(false, t), patterns), 0), goOn, emitted, done)
  {
    hide Projects, EachFrom, Enumerates, Emitting, WellFormed, KeyOf, SourceLaid, FoldedLaid, Origins;
    ghost var m, ps := Mode(false, t), AllUnits(Mode(false, t), patterns);
    emitted := [];
    if needles == [] {
      NothingToFind(m, h, ps);
      EmitNothing(EachFrom(m, h, ps, 0), goOn);
      EmitDone(EachFrom(m, h, ps, 0), goOn, emitted);
      return emitted, true;
    }
    var text, origin;
    ghost var l;
    text, origin, l := FoldWithOrigin(t, h);
    ReadLaid(h, l);
    FoldedProjects(t, h, ps, text, needles, origin, l);
    emitted, done := PendingEach(m, h, ps, text, needles, origin, Bounds(l), goOn);
  }

  lemma {:induction false} NothingToFind(m: Mode, h: Bytes, ps: seq<Pattern>)
    requires m.Valid() && ps == []
    ensures EachFrom(m, h, ps, 0) == []
  {
    hide FindFrom;
    if FindFrom(m, h, ps, 0).Some? {
      FindMatches(m, h, ps, 0);
    }
    EachNone(m, h, ps, 0);
  }
}
