/** Enumeration by root buckets. Complete triples nominate starts everywhere; where four
    ASCII bytes stand, tables compiled from the first three or four trie edges nominate
    instead. A candidate is confirmed by stored ASCII words or by a walk down the trie. */
module RootBucket {
  import opened Utf8
  import opened Spec
  import opened Greedy
  import opened Answers
  import opened Automaton
  import opened Lexer
  import opened Links
  import opened AsciiSkip
  import opened Plan
  import opened Search
  import opened Decoded
  import opened RootFilters
  import opened TripleFilters
  import opened Filtered
  import opened RawMatch

  const PREFIX_SLOTS := 8
  const PREFIX_BYTES := 4

  // ----- complete triples

  /** The triples admit every position at which a pattern starts. */
  ghost predicate ScreensAll(p: SearchPlan, ts: seq<Triple>)
    reads p
  {
    forall h: Bytes, q: nat, i: nat :: Starts(p, h, q, i) ==> AdmitsTriple(ts, h, q)
  }

  method CompleteTriples(p: SearchPlan) returns (ts: seq<Triple>, complete: bool)
    requires p.Valid()
    ensures complete ==> ScreensAll(p, ts)
  {
    hide AllLinked, AllRows, TokensAreClasses, AdmitsTriple, Starts;
    StartState(p);
    var roots;
    ts, roots := MakeTripleFilter(p);
    complete := p.nodes[0].edges.Keys <= roots;
    if complete {
      forall h: Bytes, q: nat, i: nat | Starts(p, h, q, i) ensures AdmitsTriple(ts, h, q) {
        StartToken(p, h, q, i);
        RootOf(p, i);
      }
    }
  }

  // ----- ASCII prefixes of the trie

  /** Some ASCII character has the token. */
  predicate AsciiToken(p: SearchPlan, token: nat)
    reads p
  {
    exists b: byte :: IsAscii(b) && p.tokens.Of(Rune(b)) == token
  }

  /** The first three tokens of a pattern, or the first four when it has more. */
  function Head(w: Word): Word {
    if |w| <= PREFIX_BYTES then w else w[..PREFIX_BYTES]
  }

  ghost predicate AsciiWord(p: SearchPlan, w: Word)
    reads p
  {
    forall k :: 0 <= k < |w| ==> AsciiToken(p, w[k])
  }

  /** Every pattern whose head can be spelled in ASCII has its head among the prefixes. */
  ghost predicate PrefixesComplete(p: SearchPlan, prefixes: seq<Word>)
    reads p
  {
    forall i: nat :: i < |p.toks| && |p.toks[i]| >= 3 && AsciiWord(p, Head(p.toks[i])) ==> Head(p.toks[i]) in prefixes
  }

  /** The heads that go on from the word `w` are among the prefixes. */
  ghost predicate Below(p: SearchPlan, prefixes: seq<Word>, w: Word)
    reads p
  {
    forall i: nat :: i < |p.toks| && |p.toks[i]| >= 3 && AsciiWord(p, Head(p.toks[i])) && |w| <= |Head(p.toks[i])| && Head(p.toks[i])[..|w|] == w ==>
      Head(p.toks[i]) in prefixes
  }

  ghost predicate Grows(a: seq<Word>, b: seq<Word>) {
    forall w :: w in a ==> w in b
  }

  lemma {:induction false} GrowsBelow(p: SearchPlan, a: seq<Word>, b: seq<Word>, w: Word)
    requires Grows(a, b) && Below(p, a, w)
    ensures Below(p, b, w)
  {
  }

  function AddPrefix(prefixes: seq<Word>, w: Word): (r: Option<seq<Word>>)
    ensures r.Some? ==> Grows(prefixes, r.value) && w in r.value && |r.value| <= Max(|prefixes|, PREFIX_SLOTS)
  {
    if w in prefixes then Some(prefixes)
    else if |prefixes| >= PREFIX_SLOTS then None
    else Some(prefixes + [w])
  }

  /** Enter the path to `state`: as a prefix when it ends a pattern of three units, or has
      four; and everything below it. */
  method AddPaths(p: SearchPlan, prefixes0: seq<Word>, state: nat, w: Word) returns (prefixes: Option<seq<Word>>)
    requires p.Valid() && state < |p.nodes| && p.words[state] == w && |w| <= PREFIX_BYTES && AsciiWord(p, w)
    ensures prefixes.Some? ==> Grows(prefixes0, prefixes.value) && Below(p, prefixes.value, w)
    decreases PREFIX_BYTES - |w|
  {
    hide AllRows, TokensAreClasses, Below, NodeLinked, AsciiToken;
    var cur := prefixes0;
    var node := p.nodes[state];
    if |w| == PREFIX_BYTES {
      if (node.output.Output? && node.output.units == PREFIX_BYTES) || node.edges.Keys != {} {
        prefixes := AddPrefix(cur, w);
        if prefixes.Some? {
          FullPath(p, prefixes.value, w);
        }
        return;
      }
      DeadEnd(p, cur, state, w);
      return Some(cur);
    }
    if |w| == 3 && node.output.Output? && node.output.units == 3 {
      var added := AddPrefix(cur, w);
      if added.None? {
        return None;
      }
      cur := added.value;
    }
    ghost var own := cur;
    var pending := node.edges.Keys;
    while pending != {}
      invariant pending <= node.edges.Keys && Grows(prefixes0, cur) && Grows(own, cur)
      invariant forall t :: t in node.edges && t !in pending && AsciiToken(p, t) ==> Below(p, cur, w + [t])
    {
      var token :| token in pending;
      ghost var before := cur;
      EdgeChild(p.nodes, p.words, p.ix, state, token);
      if AsciiToken(p, token) {
        var more := AddPaths(p, cur, node.edges[token], w + [token]);
        if more.None? {
          return None;
        }
        cur := more.value;
        forall t | t in node.edges && t !in pending && AsciiToken(p, t) ensures Below(p, cur, w + [t]) {
          GrowsBelow(p, before, cur, w + [t]);
        }
      }
      pending := pending - {token};
    }
    Gather(p, cur, state, w);
    return Some(cur);
  }

  lemma {:induction false} FullPath(p: SearchPlan, prefixes: seq<Word>, w: Word)
    requires |w| == PREFIX_BYTES && w in prefixes
    ensures Below(p, prefixes, w)
  {
    forall i: nat | i < |p.toks| && |p.toks[i]| >= 3 && |w| <= |Head(p.toks[i])| && Head(p.toks[i])[..|w|] == w ensures Head(p.toks[i]) in prefixes {
      assert Head(p.toks[i])[..|w|] == Head(p.toks[i]);
    }
  }

  /** A node of depth four either ends a pattern or has children. */
  lemma {:induction false} DeadEnd(p: SearchPlan, prefixes: seq<Word>, state: nat, w: Word)
    requires p.Valid() && state < |p.nodes| && p.words[state] == w && |w| == PREFIX_BYTES
    requires !(p.nodes[state].output.Output? && p.nodes[state].output.units == PREFIX_BYTES) && p.nodes[state].edges.Keys == {}
    ensures Below(p, prefixes, w)
  {
    hide AllRows, TokensAreClasses;
    forall i: nat | i < |p.toks| && |p.toks[i]| >= 3 && |w| <= |Head(p.toks[i])| && Head(p.toks[i])[..|w|] == w ensures false {
      assert p.toks[i][..|w|] == w;
      GoesOn(p, state, i);
    }
  }

  /** The heads below a node are its own, if it ends one, and those below its children. */
  lemma {:induction false} Gather(p: SearchPlan, prefixes: seq<Word>, state: nat, w: Word)
    requires p.Valid() && state < |p.nodes| && p.words[state] == w && |w| < PREFIX_BYTES
    requires |w| == 3 && p.nodes[state].output.Output? && p.nodes[state].output.units == 3 ==> w in prefixes
    requires forall t :: t in p.nodes[state].edges && AsciiToken(p, t) ==> Below(p, prefixes, w + [t])
    ensures Below(p, prefixes, w)
  {
    hide AllRows, TokensAreClasses, AsciiToken, NodeLinked;
    forall i: nat | i < |p.toks| && |p.toks[i]| >= 3 && AsciiWord(p, Head(p.toks[i])) && |w| <= |Head(p.toks[i])| && Head(p.toks[i])[..|w|] == w
      ensures Head(p.toks[i]) in prefixes
    {
      var x := p.toks[i];
      assert x[..|w|] == w;
      GoesOn(p, state, i);
      if |x| == |w| {
        assert Head(x) == w;
      } else {
        var t := x[|w|];
        assert Head(x)[|w|] == t && AsciiToken(p, t);
        assert Head(x)[..|w| + 1] == w + [t];
        assert Below(p, prefixes, w + [t]);
      }
    }
  }

  /** A pattern that runs through a node ends there or goes on from there. */
  lemma {:induction false} GoesOn(p: SearchPlan, state: nat, i: nat)
    requires p.Valid() && state < |p.nodes| && i < |p.toks| && |p.toks[i]| > 0
    requires |p.words[state]| <= |p.toks[i]| && p.toks[i][..|p.words[state]|] == p.words[state]
    ensures |p.toks[i]| == |p.words[state]| ==> p.nodes[state].output.Output? && p.nodes[state].output.units == |p.words[state]|
    ensures |p.toks[i]| > |p.words[state]| ==> p.toks[i][|p.words[state]|] in p.nodes[state].edges
  {
    hide AllRows, TokensAreClasses, IsFailure;
    var w, x := p.toks[i], p.words[state];
    RootWord(p.words, p.ix);
    assert w in p.ix;
    if |w| == |x| {
      assert NodeLinked(p.nodes, p.words, p.ix, p.toks, state);
      assert w == x && IsSuffix(w, x);
    } else {
      PrefixWord(p.words, p.ix, w, |x| + 1);
      assert w[..|x| + 1] == x + [w[|x|]];
    }
  }

  method MakePrefixes(p: SearchPlan) returns (prefixes: Option<seq<Word>>)
    requires p.Valid()
    ensures prefixes.Some? ==> PrefixesComplete(p, prefixes.value)
  {
    hide AllRows, AllLinked, TokensAreClasses;
    StartState(p);
    RootWord(p.words, p.ix);
    prefixes := AddPaths(p, [], 0, []);
    if prefixes.Some? {
      forall i: nat | i < |p.toks| && |p.toks[i]| >= 3 && AsciiWord(p, Head(p.toks[i])) ensures Head(p.toks[i]) in prefixes.value {
        assert Head(p.toks[i])[..0] == [];
      }
    }
  }

  // ----- the bucket table

  /** For each of four positions and each ASCII value, the slots that admit it. */
  type Bucket = t: seq<seq<set<nat>>> | |t| == PREFIX_BYTES && forall k :: 0 <= k < PREFIX_BYTES ==> |t[k]| == 0x80
    witness seq(PREFIX_BYTES, _ => seq(0x80, _ => {}))

  /** The prefix allows the value at a position; a short one allows anything behind it. */
  predicate Allows(p: SearchPlan, prefix: Word, k: nat, v: byte)
    reads p
  {
    k >= |prefix| || p.tokens.Of(Rune(v)) == prefix[k]
  }

  ghost predicate SlotHolds(p: SearchPlan, bucket: Bucket, prefix: Word, slot: nat)
    reads p
  {
    forall k: nat, v: byte :: k < PREFIX_BYTES && v < 0x80 ==> (Allows(p, prefix, k, v) <==> slot in bucket[k][v])
  }

  /** The table holds a slot exactly where its prefix allows the byte, and no other slot. */
  method FillBucket(p: SearchPlan, prefixes: seq<Word>) returns (bucket: Bucket)
    ensures forall slot :: 0 <= slot < |prefixes| ==> SlotHolds(p, bucket, prefixes[slot], slot)
    ensures forall k, v, slot: nat :: 0 <= k < PREFIX_BYTES && 0 <= v < 0x80 && slot in bucket[k][v] ==> slot < |prefixes|
  {
    bucket := seq(PREFIX_BYTES, k requires 0 <= k < PREFIX_BYTES reads p => seq(0x80, v requires 0 <= v < 0x80 reads p => Slots(p, prefixes, k, v)));
    forall slot | 0 <= slot < |prefixes| ensures SlotHolds(p, bucket, prefixes[slot], slot) {
    }
  }

  /** The prefixes that allow the value at a position. */
  function Slots(p: SearchPlan, prefixes: seq<Word>, k: nat, v: byte): (s: set<nat>)
    reads p
    ensures forall slot: nat :: slot in s <==> slot < |prefixes| && Allows(p, prefixes[slot], k, v)
  {
    set slot: nat | slot < |prefixes| && Allows(p, prefixes[slot], k, v)
  }

  predicate FourAscii(h: Bytes, q: nat) {
    q + 4 <= |h| && IsAscii(h[q]) && IsAscii(h[q + 1]) && IsAscii(h[q + 2]) && IsAscii(h[q + 3])
  }

  /** The slots that admit all four bytes. */
  function Shared(bucket: Bucket, h: Bytes, q: nat): (s: set<nat>)
    requires FourAscii(h, q)
    ensures forall slot: nat :: slot in s <==>
              slot in bucket[0][h[q]] && slot in bucket[1][h[q + 1]] && slot in bucket[2][h[q + 2]] && slot in bucket[3][h[q + 3]]
  {
    var a: set<nat> := bucket[0][h[q]] * bucket[1][h[q + 1]];
    var b: set<nat> := bucket[2][h[q + 2]] * bucket[3][h[q + 3]];
    a * b
  }

  predicate BucketAdmits(bucket: Bucket, h: Bytes, q: nat)
    requires FourAscii(h, q)
  {
    Shared(bucket, h, q) != {}
  }

  /** In ASCII the unit `j` of a match is the byte `j` of it, as far as ASCII reaches. */
  lemma {:induction false} AsciiUnitAt(p: SearchPlan, h: Bytes, q: nat, i: nat, j: nat, n: nat)
    requires p.Valid() && !p.mode.exact && Starts(p, h, q, i) && AsciiRange(h, q, q + n) && j < n && j < |p.Ps()[i]|
    ensures i < |p.toks| && j < |p.toks[i]| && p.tokens.Of(Rune(h[q + j])) == p.toks[i][j]
  {
    hide AllRows, AllLinked, TokensAreClasses, Same, MatchEnd;
    AsciiByte(p.mode, h, q, p.Ps()[i], j, n);
    assert Spells(p.mode, p.tokens, p.Ps()[i], p.toks[i]);
  }

  lemma {:induction false} AsciiByte(m: Mode, h: Bytes, q: nat, a: Pattern, j: nat, n: nat)
    requires m.Valid() && !m.exact && AsciiRange(h, q, q + n) && MatchEnd(m, h, q, a).Some? && j < n && j < |a|
    ensures Same(m, Rune(h[q + j]), a[j])
    decreases |a|
  {
    hide Same;
    AsciiUnit(m, h, q);
    if j > 0 {
      AsciiByte(m, h, q + 1, a[1..], j - 1, n - 1);
    }
  }

  /** A match of few units, all ASCII, ends within ASCII. */
  lemma {:induction false} AsciiEnd(m: Mode, h: Bytes, q: nat, a: Pattern, n: nat)
    requires m.Valid() && !m.exact && AsciiRange(h, q, q + n) && MatchEnd(m, h, q, a).Some? && |a| <= n
    ensures MatchEnd(m, h, q, a).value == q + |a|
    decreases |a|
  {
    hide Same;
    if a != [] {
      AsciiUnit(m, h, q);
      AsciiEnd(m, h, q + 1, a[1..], n - 1);
    }
  }

  /** Complete triples leave no pattern that three ASCII bytes could not start. */
  lemma {:induction false} ThreeUnits(p: SearchPlan, ts: seq<Triple>, h: Bytes, q: nat, i: nat)
    requires p.Valid() && !p.mode.exact && ScreensAll(p, ts) && Starts(p, h, q, i) && AsciiRange(h, q, q + 3)
    ensures |p.Ps()[i]| >= 3
  {
    hide AllRows, AllLinked, TokensAreClasses, MatchEnd;
    var a := p.Ps()[i];
    if |a| < 3 {
      AsciiEnd(p.mode, h, q, a, 3);
      var n := q + |a|;
      MatchCut(p.mode, h, n, q, a);
      var t := h[..n];
      MatchSuffix(p.mode, t, q, 0, a);
      assert Starts(p, t[q..], 0, i);
      assert AdmitsTriple(ts, t[q..], 0);
      TripleLong(ts, t[q..]);
      assert false;
    }
  }

  lemma {:induction false} TripleLong(ts: seq<Triple>, h: Bytes)
    requires AdmitsTriple(ts, h, 0)
    ensures |h| >= 3
  {
  }

  /** Where four ASCII bytes stand the bucket admits every start. */
  lemma {:induction false} StartInBucket(p: SearchPlan, ts: seq<Triple>, prefixes: seq<Word>, bucket: Bucket, h: Bytes, q: nat, i: nat)
    requires p.Valid() && !p.mode.exact && ScreensAll(p, ts) && PrefixesComplete(p, prefixes)
    requires forall slot :: 0 <= slot < |prefixes| ==> SlotHolds(p, bucket, prefixes[slot], slot)
    requires FourAscii(h, q) && Starts(p, h, q, i)
    ensures BucketAdmits(bucket, h, q)
  {
    hide SearchPlan.Valid, Starts, ScreensAll, BucketAdmits, Slots, AsciiToken, SlotHolds;
    ThreeUnits(p, ts, h, q, i);
    StartToken(p, h, q, i);
    var w := Head(p.toks[i]);
    forall k: nat | k < |w| ensures AsciiToken(p, w[k]) {
      HeadByte(p, h, q, i, k);
    }
    assert AsciiWord(p, w);
    assert w in prefixes;
    var slot :| 0 <= slot < |prefixes| && prefixes[slot] == w;
    forall k: nat | k < 4 ensures slot in bucket[k][h[q + k]] {
      if k < |w| {
        HeadByte(p, h, q, i, k);
      }
      SlotAllows(p, bucket, prefixes[slot], slot, k, h[q + k]);
    }
    InBucket(bucket, h, q, slot);
  }

  lemma {:induction false} HeadByte(p: SearchPlan, h: Bytes, q: nat, i: nat, k: nat)
    requires p.Valid() && !p.mode.exact && FourAscii(h, q) && Starts(p, h, q, i) && i < |p.toks| && |p.toks[i]| == |p.Ps()[i]|
    requires k < |Head(p.toks[i])| && k < 4
    ensures p.tokens.Of(Rune(h[q + k])) == Head(p.toks[i])[k] && AsciiToken(p, Head(p.toks[i])[k])
  {
    hide SearchPlan.Valid, Starts;
    AsciiUnitAt(p, h, q, i, k, 4);
  }

  lemma {:induction false} SlotAllows(p: SearchPlan, bucket: Bucket, prefix: Word, slot: nat, k: nat, v: byte)
    requires SlotHolds(p, bucket, prefix, slot) && k < PREFIX_BYTES && IsAscii(v)
    requires Allows(p, prefix, k, v)
    ensures slot in bucket[k][v]
  {
  }

  lemma {:induction false} InBucket(bucket: Bucket, h: Bytes, q: nat, slot: nat)
    requires FourAscii(h, q) && forall k: nat :: k < 4 ==> slot in bucket[k][h[q + k]]
    ensures BucketAdmits(bucket, h, q)
  {
    assert slot in bucket[0][h[q + 0]] && slot in bucket[1][h[q + 1]] && slot in bucket[2][h[q + 2]] && slot in bucket[3][h[q + 3]];
    assert slot in Shared(bucket, h, q);
  }

  /** What the bucket route needs of a plan. */
  ghost predicate Bucketed(p: SearchPlan, ts: seq<Triple>, prefixes: seq<Word>, bucket: Bucket)
    reads p
  {
    && p.Valid() && !p.mode.exact && ScreensAll(p, ts) && PrefixesComplete(p, prefixes)
    && forall slot :: 0 <= slot < |prefixes| ==> SlotHolds(p, bucket, prefixes[slot], slot)
  }

  /** The positions from `at` on at which nothing starts. Which positions the block kernel
      takes is arbitrary; it takes only those with four ASCII bytes. */
  method TripleBucketSkip(p: SearchPlan, ts: seq<Triple>, ghost prefixes: seq<Word>, bucket: Bucket, h: Bytes, at0: nat, blocks: nat -> bool)
    returns (at: nat)
    requires Bucketed(p, ts, prefixes, bucket) && at0 <= |h|
    ensures at0 <= at <= |h| && forall q: nat, i: nat :: at0 <= q < at ==> !Starts(p, h, q, i)
  {
    hide SearchPlan.Valid, Starts, AdmitsTriple, BucketAdmits, SlotHolds, PrefixesComplete;
    at := at0;
    while at + 2 < |h|
      invariant at0 <= at <= |h| && forall q: nat, i: nat :: at0 <= q < at ==> !Starts(p, h, q, i)
    {
      var admitted;
      if FourAscii(h, at) && blocks(at) {
        admitted := BucketAdmits(bucket, h, at);
        forall i: nat | Starts(p, h, at, i) ensures admitted {
          StartInBucket(p, ts, prefixes, bucket, h, at, i);
        }
      } else {
        admitted := AdmitsTriple(ts, h, at);
      }
      if admitted {
        return;
      }
      at := at + 1;
    }
  }

  // ----- confirming by the trie

  /** Below the root nothing but edges is followed, so the state spells the text. */
  lemma {:induction false} EdgeState(p: SearchPlan, xs: Word, state: nat, t: nat)
    requires p.Valid() && IsState(p, xs, state) && p.words[state] == xs && state < |p.nodes| && t in p.nodes[state].edges
    ensures var next := p.nodes[state].edges[t];
            next < |p.words| && next == Target(p.words, p.ix, state, t) && p.words[next] == xs + [t]
  {
    hide AllRows, TokensAreClasses, NodeLinked;
    EdgeChild(p.nodes, p.words, p.ix, state, t);
    TargetByEdge(p.words, p.ix, state, t);
  }

  /** A longer match would go on along an edge. */
  lemma {:induction false} NoEdgeNoMatch(p: SearchPlan, h: Bytes, offs: seq<nat>, xs: Word, state: nat, i: nat)
    requires p.Valid() && Trace(p.mode, p.tokens, h, offs, xs) && state < |p.nodes| && p.words[state] == xs && offs[|xs|] < |h|
    requires TokenAt(p, h, offs[|xs|]) !in p.nodes[state].edges
    requires i < |p.toks| && |p.toks[i]| > |xs|
    ensures MatchEnd(p.mode, h, offs[0], p.Ps()[i]) == None
  {
    hide AllRows, TokensAreClasses, NodeLinked, MatchEnd;
    var at, t := offs[|xs|], TokenAt(p, h, offs[|xs|]);
    if MatchEnd(p.mode, h, offs[0], p.Ps()[i]).Some? {
      var to: nat := at + SizeAt(p.mode, h, at);
      TraceExtend(p.mode, p.tokens, h, offs, xs);
      if |p.toks[i]| > |xs| + 1 {
        WordBegins(p, h, offs + [to], xs + [t], i);
      } else {
        WholeWord(p, h, offs + [to], xs + [t], i);
      }
      assert p.toks[i][..|xs| + 1] == xs + [t] && p.toks[i] in p.ix;
      PrefixWord(p.words, p.ix, p.toks[i], |xs| + 1);
      assert false;
    }
  }

  lemma {:induction false} WholeWord(p: SearchPlan, h: Bytes, offs: seq<nat>, xs: Word, i: nat)
    requires p.Valid() && |offs| == |xs| + 1 && Trace(p.mode, p.tokens, h, offs, xs) && i < |p.toks| && |p.toks[i]| == |xs|
    requires MatchEnd(p.mode, h, offs[0], p.Ps()[i]).Some?
    ensures p.toks[i][..|xs|] == xs
  {
    hide AllRows, TokensAreClasses, AllLinked, MatchEnd;
    MatchIsWord(p.Lex(), h, offs, xs, 0, i, 0);
    assert p.Ps()[i][0..] == p.Ps()[i] && p.toks[i][0..] == p.toks[i] && xs[0..|xs|] == xs && p.toks[i][..|xs|] == p.toks[i];
  }

  /** Walk down the trie from `start`: the lowest pattern that matches exactly there. */
  method MatchAtStart(p: SearchPlan, h: Bytes, start: nat) returns (found: Option<(nat, nat)>)
    requires p.Valid() && NoEmptyPattern(p) && start < |h|
    ensures BestHere(p, h, start, found)
  {
    hide Trace, AllLinked, TokensAreClasses, AllRows, Target, Longest, Automaton.Spelled, WordIndex, TokenAt, LowestPrefix,
         NoEmptyPattern, BestHere, LowestOnTrace;
    var state: nat, at, units: nat := 0, start, 0;
    var best: Option<nat>, bestWidth: nat := None, 0;
    ghost var offs: seq<nat>, xs: Word := [start], [];
    StartReplay(p, h, start);
    RootSpells(p);
    while units < p.maxUnits && at < |h|
      invariant start <= at <= |h| && |xs| == units && |offs| == units + 1 && offs[units] == at && offs[0] == start
      invariant Trace(p.mode, p.tokens, h, offs, xs) && IsState(p, xs, state) && LowestPrefix(p.toks, xs, best)
      invariant state < |p.words| && p.words[state] == xs
      invariant best.Some? ==> best.value < |p.toks| && |p.toks[best.value]| <= units && offs[|p.toks[best.value]|] == start + bestWidth
      decreases |h| - at
    {
      var token, size := HaystackToken(p, h, at);
      if token !in p.nodes[state].edges {
        Stuck(p, h, offs, xs, state, best);
        Report(p, h, offs, best, bestWidth);
        return if best.Some? then Some((best.value, bestWidth)) else None;
      }
      EdgeState(p, xs, state, token);
      var next := p.nodes[state].edges[token];
      var out := p.nodes[next].output;
      ReplayOne(p, h, offs, xs, state, next, token, at + size, out, best);
      state, at, units := next, at + size, units + 1;
      offs, xs := offs + [at], xs + [token];
      if out.Output? && out.units == units && (best.None? || out.pattern < best.value) {
        best, bestWidth := Some(out.pattern), at - start;
      }
    }
    EndReplay(p, h, offs, xs, best);
    Report(p, h, offs, best, bestWidth);
    return if best.Some? then Some((best.value, bestWidth)) else None;
  }

  lemma {:induction false} RootSpells(p: SearchPlan)
    requires p.Valid()
    ensures |p.words| > 0 && p.words[0] == []
  {
    hide AllRows, TokensAreClasses;
    RootWord(p.words, p.ix);
  }

  lemma {:induction false} Stuck(p: SearchPlan, h: Bytes, offs: seq<nat>, xs: Word, state: nat, best: Option<nat>)
    requires p.Valid() && Trace(p.mode, p.tokens, h, offs, xs) && LowestPrefix(p.toks, xs, best) && state < |p.nodes|
    requires p.words[state] == xs && |offs| == |xs| + 1 && offs[|xs|] < |h| && TokenAt(p, h, offs[|xs|]) !in p.nodes[state].edges
    ensures LowestOnTrace(p, h, offs, best)
  {
    hide AllRows, TokensAreClasses, AllLinked, LowestPrefix, LowestOnTrace, Trace;
    TraceLength(p, h, offs, xs);
    forall i | 0 <= i < |p.toks| && |p.toks[i]| > |xs| ensures MatchEnd(p.mode, h, offs[0], p.Ps()[i]) == None {
      NoEdgeNoMatch(p, h, offs, xs, state, i);
    }
    Settled(p, h, offs, xs, best);
  }

  // ----- word certificates

  const WORD_BYTES := 8
  const MAX_WORDS := 3
  const MAX_UNITS := MAX_WORDS * WORD_BYTES
  const MAX_PATTERNS := 5
  const HEADER_BYTES := 2
  const ENTRY_BYTES := 1 + MAX_UNITS * 2

  /** One pattern as ASCII words: a byte for each unit, and the case bits it ignores. */
  datatype Cert = Cert(units: nat, values: Bytes, folds: Bytes)

  /** A source byte with the ignored case bit set. */
  function Fold(b: byte, fold: byte): byte {
    if fold == 0x20 then Lower(b) else b
  }

  /** The certificate says of ASCII bytes what the tokens of pattern `i` say. */
  ghost predicate CertOf(p: SearchPlan, i: nat, c: Cert)
    reads p
  {
    && i < |p.toks| && 0 < c.units == |p.toks[i]| <= MAX_UNITS && |c.values| == MAX_UNITS && |c.folds| == MAX_UNITS
    && (forall j :: 0 <= j < c.units ==> UnitCert(p, p.toks[i][j], c.values[j], c.folds[j]))
    && (forall j :: c.units <= j < MAX_UNITS ==> c.values[j] == 0)
  }

  ghost predicate UnitCert(p: SearchPlan, token: nat, value: byte, fold: byte)
    reads p
  {
    forall b: byte :: IsAscii(b) ==> (p.tokens.Of(Rune(b)) == token <==> Fold(b, fold) == value)
  }

  /** The bytes of a token, when it is one ASCII character or the two cases of one letter. */
  method CertifyUnit(p: SearchPlan, token: nat) returns (ok: bool, value: byte, fold: byte)
    ensures ok ==> UnitCert(p, token, value, fold)
  {
    var kind, needle, first := KindOf(TokenFlags(p, token));
    value, fold := needle, if kind == AsciiFold then 0x20 else 0;
    ok := kind != Generic;
    if ok {
      forall b: byte | IsAscii(b) ensures p.tokens.Of(Rune(b)) == token <==> Fold(b, fold) == value {
        assert TokenFlags(p, token)[b] <==> Meets(kind, needle, b);
      }
    }
  }

  /** The certificate of one pattern, unless a unit of it is not ASCII or it is too long. */
  method CertifyPattern(p: SearchPlan, i: nat) returns (c: Option<Cert>)
    requires p.Valid() && i < |p.patterns|
    ensures c.Some? ==> CertOf(p, i, c.value)
  {
    hide SearchPlan.Valid, UnitCert, FormLen, FormRune;
    var s := p.patterns[i];
    ghost var us := p.Ps()[i];
    assert us[0..] == us;
    TokensOf(p, i);
    var values: Bytes, folds: Bytes, at: nat := [], [], 0;
    while at < |s|
      invariant at <= |s| && |values| == |folds| <= |us| && |values| <= MAX_UNITS && us[|values|..] == Units(p.mode, s, at)
      invariant forall j :: 0 <= j < |values| ==> UnitCert(p, p.toks[i][j], values[j], folds[j])
      decreases |s| - at
    {
      assert us[|values|] == us[|values|..][0] == UnitAt(p.mode, s, at) && us[|values| + 1..] == us[|values|..][1..];
      UnitTokenIs(p, i, |values|);
      var token, size := HaystackToken(p, s, at);
      var ok, value, fold := CertifyUnit(p, token);
      if !ok || |values| == MAX_UNITS {
        return None;
      }
      values, folds, at := values + [value], folds + [fold], at + size;
    }
    if values == [] {
      return None;
    }
    var rest: nat := MAX_UNITS - |values|;
    return Some(Cert(|values|, values + seq(rest, _ => 0), folds + seq(rest, _ => 0)));
  }

  lemma {:induction false} TokensOf(p: SearchPlan, i: nat)
    requires p.Valid() && i < |p.Ps()|
    ensures i < |p.toks| && |p.toks[i]| == |p.Ps()[i]|
  {
    hide AllRows, AllLinked;
    assert Spells(p.mode, p.tokens, p.Ps()[i], p.toks[i]);
  }

  lemma {:induction false} UnitTokenIs(p: SearchPlan, i: nat, j: nat)
    requires p.Valid() && i < |p.Ps()| && j < |p.Ps()[i]|
    ensures i < |p.toks| && j < |p.toks[i]| && p.tokens.Of(p.Ps()[i][j]) == p.toks[i][j]
  {
    hide AllRows, AllLinked;
    assert Spells(p.mode, p.tokens, p.Ps()[i], p.toks[i]);
    SameReflexive(p.mode, p.Ps()[i][j]);
  }

  ghost predicate Certified(p: SearchPlan, certs: seq<Cert>)
    reads p
  {
    |certs| == |p.patterns| && |certs| <= MAX_PATTERNS && forall i: nat :: i < |certs| ==> CertOf(p, i, certs[i])
  }

  method MakeRootASCIIWordCerts(p: SearchPlan) returns (certs: Option<seq<Cert>>)
    requires p.Valid()
    ensures certs.Some? ==> Certified(p, certs.value) && p.maxUnits <= MAX_UNITS
  {
    hide AllRows, AllLinked, CertOf;
    if |p.patterns| < 4 || |p.patterns| > MAX_PATTERNS || p.empty.Some? || p.maxUnits == 0 || p.maxUnits > MAX_UNITS {
      return None;
    }
    var out: seq<Cert> := [];
    for i := 0 to |p.patterns|
      invariant |out| == i && forall k: nat :: k < i ==> CertOf(p, k, out[k])
    {
      var c := CertifyPattern(p, i);
      if c.None? {
        return None;
      }
      out := out + [c.value];
    }
    return Some(out);
  }

  // ----- the stored form

  ghost predicate Shaped(certs: seq<Cert>) {
    forall k :: 0 <= k < |certs| ==> 0 < certs[k].units <= MAX_UNITS && |certs[k].values| == MAX_UNITS && |certs[k].folds| == MAX_UNITS
  }

  lemma {:induction false} CertifiedShape(p: SearchPlan, certs: seq<Cert>)
    requires Certified(p, certs)
    ensures Shaped(certs) && |certs| <= MAX_PATTERNS
  {
    hide UnitCert;
    forall k | 0 <= k < |certs| ensures 0 < certs[k].units <= MAX_UNITS && |certs[k].values| == MAX_UNITS && |certs[k].folds| == MAX_UNITS {
      assert CertOf(p, k, certs[k]);
    }
  }

  function Entry(c: Cert): Bytes
    requires c.units < 256
  {
    [c.units] + c.values + c.folds
  }

  /** Write the certificates behind one another. */
  method Write(maxUnits: byte, certs: seq<Cert>) returns (data: Bytes)
    requires Shaped(certs) && |certs| < 256
    ensures Stored(data, maxUnits, certs)
  {
    data := [maxUnits, |certs|];
    for k := 0 to |certs|
      invariant |data| == HEADER_BYTES + k * ENTRY_BYTES && data[0] == maxUnits && data[1] == |certs|
      invariant forall j :: 0 <= j < k ==> EntryAt(data, certs, j)
    {
      ghost var before := data;
      data := data + Entry(certs[k]);
      forall j | 0 <= j < k + 1 ensures EntryAt(data, certs, j) {
        if j < k {
          EntryKept(before, Entry(certs[k]), certs, j);
        } else {
          assert data[|before|..] == Entry(certs[k]);
        }
      }
    }
  }

  /** Entry `k` stands where reading looks for it. */
  ghost predicate EntryAt(data: Bytes, certs: seq<Cert>, k: nat) {
    && k < |certs| && certs[k].units < 256
    && HEADER_BYTES + k * ENTRY_BYTES + |Entry(certs[k])| <= |data|
    && data[HEADER_BYTES + k * ENTRY_BYTES..HEADER_BYTES + k * ENTRY_BYTES + |Entry(certs[k])|] == Entry(certs[k])
  }

  lemma {:induction false} EntryKept(data: Bytes, more: Bytes, certs: seq<Cert>, k: nat)
    requires EntryAt(data, certs, k)
    ensures EntryAt(data + more, certs, k)
  {
    var from := HEADER_BYTES + k * ENTRY_BYTES;
    var to := from + |Entry(certs[k])|;
    assert (data + more)[from..to] == data[from..to];
  }

  ghost predicate Stored(data: Bytes, maxUnits: byte, certs: seq<Cert>) {
    && |data| >= HEADER_BYTES && data[0] == maxUnits && data[1] == |certs| && Shaped(certs)
    && forall k :: 0 <= k < |certs| ==> EntryAt(data, certs, k)
  }

  /** Reading an entry gives back what was written. */
  lemma {:induction false} ReadEntry(data: Bytes, maxUnits: byte, certs: seq<Cert>, k: nat)
    requires Stored(data, maxUnits, certs) && k < |certs|
    ensures var at := HEADER_BYTES + k * ENTRY_BYTES;
            && at + ENTRY_BYTES <= |data| && data[at] == certs[k].units
            && data[at + 1..at + 1 + MAX_UNITS] == certs[k].values
            && data[at + 1 + MAX_UNITS..at + ENTRY_BYTES] == certs[k].folds
  {
    var at := HEADER_BYTES + k * ENTRY_BYTES;
    var e := Entry(certs[k]);
    assert EntryAt(data, certs, k);
    var slice := data[at..at + |e|];
    assert slice == e;
    assert data[at] == slice[0];
    assert data[at + 1..at + 1 + MAX_UNITS] == slice[1..1 + MAX_UNITS] == certs[k].values;
    assert data[at + 1 + MAX_UNITS..at + ENTRY_BYTES] == slice[1 + MAX_UNITS..] == certs[k].folds;
  }

  // ----- comparing words

  /** The prefix of the source, word by word; zero beyond its end. */
  method LoadPrefix(h: Bytes, start: nat, maxUnits: nat) returns (known: bool, prefix: Bytes)
    requires start + maxUnits <= |h| && maxUnits <= MAX_UNITS
    ensures known <==> AsciiRange(h, start, start + maxUnits)
    ensures known ==> |prefix| == MAX_UNITS && prefix[..maxUnits] == h[start..start + maxUnits]
  {
    prefix := [];
    var word := 0;
    while (word + 1) * WORD_BYTES <= maxUnits
      invariant word * WORD_BYTES <= maxUnits && prefix == h[start..start + word * WORD_BYTES]
      invariant AsciiRange(h, start, start + word * WORD_BYTES)
    {
      var at := start + word * WORD_BYTES;
      var value := h[at..at + WORD_BYTES];
      if exists lane :: 0 <= lane < WORD_BYTES && !IsAscii(value[lane]) {
        ghost var lane :| 0 <= lane < WORD_BYTES && !IsAscii(value[lane]);
        assert !IsAscii(h[at + lane]);
        return false, prefix;
      }
      forall q | start <= q < at + WORD_BYTES ensures IsAscii(h[q]) {
        if at <= q {
          assert value[q - at] == h[q];
        }
      }
      assert h[start..at] + value == h[start..at + WORD_BYTES];
      prefix, word := prefix + value, word + 1;
    }
    var unit := word * WORD_BYTES;
    while unit < maxUnits
      invariant word * WORD_BYTES <= unit <= maxUnits && prefix == h[start..start + unit] && AsciiRange(h, start, start + unit)
    {
      if !IsAscii(h[start + unit]) {
        return false, prefix;
      }
      assert h[start..start + unit] + [h[start + unit]] == h[start..start + unit + 1];
      prefix, unit := prefix + [h[start + unit]], unit + 1;
    }
    var rest: nat := MAX_UNITS - maxUnits;
    prefix := prefix + seq(rest, _ => 0);
    known := true;
  }

  /** The lane of the source that is compared: masked off behind the last unit. */
  function Masked(prefix: Bytes, folds: Bytes, units: nat, j: nat): byte
    requires j < |prefix| && j < |folds|
  {
    if j < units then Fold(prefix[j], folds[j]) else 0
  }

  /** Compare whole words; the last one is masked to the units it holds. A word is taken as
      its eight byte lanes: comparing packed 64-bit words compares all lanes at once. */
  method CompareWords(prefix: Bytes, values: Bytes, folds: Bytes, units: nat) returns (matched: bool)
    requires |prefix| == MAX_UNITS && |values| == MAX_UNITS && |folds| == MAX_UNITS && units <= MAX_UNITS
    requires forall j :: units <= j < MAX_UNITS ==> values[j] == 0
    ensures matched <==> forall j :: 0 <= j < units ==> Fold(prefix[j], folds[j]) == values[j]
  {
    var words := (units + 7) / WORD_BYTES;
    for word := 0 to words
      invariant word * WORD_BYTES <= units + 7 && forall j :: 0 <= j < word * WORD_BYTES && j < units ==> Fold(prefix[j], folds[j]) == values[j]
    {
      var at := word * WORD_BYTES;
      assert at + WORD_BYTES <= MAX_UNITS;
      if exists j :: at <= j < at + WORD_BYTES && Masked(prefix, folds, units, j) != values[j] {
        ghost var j :| at <= j < at + WORD_BYTES && Masked(prefix, folds, units, j) != values[j];
        assert j < units;
        return false;
      }
      forall j | 0 <= j < at + WORD_BYTES && j < units ensures Fold(prefix[j], folds[j]) == values[j] {
        if at <= j {
          assert Masked(prefix, folds, units, j) == values[j];
        }
      }
    }
    matched := true;
  }

  /** The certificate of pattern `i` fits the source bytes. */
  ghost predicate Fits(c: Cert, h: Bytes, start: nat) {
    && start + c.units <= |h| && c.units <= |c.values| && c.units <= |c.folds|
    && forall j :: 0 <= j < c.units ==> Fold(h[start + j], c.folds[j]) == c.values[j]
  }

  /** Read the certificates in order; the first that fits the ASCII prefix is the match. */
  method MatchRootASCIIWordCertData(p: SearchPlan, data: Bytes, ghost certs: seq<Cert>, h: Bytes, start: nat) returns (found: Option<(nat, nat)>, known: bool)
    requires p.Valid() && !p.mode.exact && NoEmptyPattern(p) && Certified(p, certs) && p.maxUnits <= MAX_UNITS
    requires Stored(data, p.maxUnits, certs) && start <= |h|
    ensures known <==> start + p.maxUnits <= |h| && AsciiRange(h, start, start + p.maxUnits)
    ensures known ==> BestHere(p, h, start, found)
  {
    hide SearchPlan.Valid, NoEmptyPattern, BestHere, CertOf, Stored, Fits;
    StoredHeader(data, p.maxUnits, certs);
    var maxUnits: nat, count: nat := data[0], data[1];
    if |h| - start < maxUnits {
      return None, false;
    }
    var prefix;
    known, prefix := LoadPrefix(h, start, maxUnits);
    if !known {
      return None, false;
    }
    for id := 0 to count
      invariant forall k: nat :: k < id ==> !Fits(certs[k], h, start)
    {
      var at := HEADER_BYTES + id * ENTRY_BYTES;
      ReadEntry(data, p.maxUnits, certs, id);
      CertShape(p, id, certs[id]);
      var units: nat := data[at];
      var matched := CompareWords(prefix, data[at + 1..at + 1 + MAX_UNITS], data[at + 1 + MAX_UNITS..at + ENTRY_BYTES], units);
      FitsPrefix(certs[id], h, start, prefix, maxUnits);
      if matched {
        FirstFit(p, certs, h, start, id);
        return Some((id, units)), true;
      }
    }
    NoFit(p, certs, h, start);
    return None, true;
  }

  lemma {:induction false} StoredHeader(data: Bytes, maxUnits: byte, certs: seq<Cert>)
    requires Stored(data, maxUnits, certs)
    ensures |data| >= HEADER_BYTES && data[0] == maxUnits && data[1] == |certs|
  {
  }

  lemma {:induction false} CertShape(p: SearchPlan, i: nat, c: Cert)
    requires p.Valid() && CertOf(p, i, c) && i < |p.Ps()|
    ensures 0 < c.units <= MAX_UNITS && |c.values| == MAX_UNITS && |c.folds| == MAX_UNITS && c.units <= p.maxUnits
    ensures c.units == |p.Ps()[i]| && forall j :: c.units <= j < MAX_UNITS ==> c.values[j] == 0
  {
    hide AllRows, AllLinked, TokensAreClasses;
    assert Spells(p.mode, p.tokens, p.Ps()[i], p.toks[i]);
  }

  lemma {:induction false} FitsPrefix(c: Cert, h: Bytes, start: nat, prefix: Bytes, maxUnits: nat)
    requires start + maxUnits <= |h| && |prefix| == MAX_UNITS && maxUnits <= MAX_UNITS && prefix[..maxUnits] == h[start..start + maxUnits]
    requires c.units <= maxUnits && |c.values| == MAX_UNITS && |c.folds| == MAX_UNITS
    ensures Fits(c, h, start) <==> forall j :: 0 <= j < c.units ==> Fold(prefix[j], c.folds[j]) == c.values[j]
  {
    forall j | 0 <= j < c.units ensures prefix[j] == h[start + j] {
      assert prefix[..maxUnits][j] == h[start..start + maxUnits][j];
    }
  }

  /** On ASCII input a certificate fits exactly where its pattern matches. */
  lemma {:induction false} FitIsMatch(p: SearchPlan, c: Cert, h: Bytes, start: nat, i: nat)
    requires p.Valid() && !p.mode.exact && CertOf(p, i, c) && i < |p.Ps()| && AsciiRange(h, start, start + p.maxUnits)
    ensures Fits(c, h, start) <==> MatchEnd(p.mode, h, start, p.Ps()[i]).Some?
    ensures Fits(c, h, start) ==> MatchEnd(p.mode, h, start, p.Ps()[i]) == Some(start + c.units)
  {
    hide AllRows, AllLinked, TokensAreClasses, MatchEnd, Same, Fold;
    CertShape(p, i, c);
    var a := p.Ps()[i];
    assert Spells(p.mode, p.tokens, a, p.toks[i]);
    forall j | 0 <= j < c.units
      ensures Same(p.mode, Rune(h[start + j]), a[j]) <==> Fold(h[start + j], c.folds[j]) == c.values[j]
    {
      assert UnitCert(p, p.toks[i][j], c.values[j], c.folds[j]);
    }
    if MatchEnd(p.mode, h, start, a).Some? {
      forall j: nat | j < c.units ensures Same(p.mode, Rune(h[start + j]), a[j]) {
        AsciiByte(p.mode, h, start, a, j, p.maxUnits);
      }
    }
    if Fits(c, h, start) {
      AsciiSpells(p.mode, h, start, a, p.maxUnits);
    }
  }

  /** ASCII bytes that match unit by unit are a match. */
  lemma {:induction false} AsciiSpells(m: Mode, h: Bytes, q: nat, a: Pattern, n: nat)
    requires m.Valid() && !m.exact && AsciiRange(h, q, q + n) && |a| <= n
    requires forall j :: 0 <= j < |a| ==> Same(m, Rune(h[q + j]), a[j])
    ensures MatchEnd(m, h, q, a) == Some(q + |a|)
    decreases |a|
  {
    hide Same;
    if a != [] {
      AsciiUnit(m, h, q);
      assert Same(m, Rune(h[q + 0]), a[0]);
      forall j | 0 <= j < |a[1..]| ensures Same(m, Rune(h[q + 1 + j]), a[1..][j]) {
        assert Same(m, Rune(h[q + (j + 1)]), a[j + 1]);
      }
      AsciiSpells(m, h, q + 1, a[1..], n - 1);
    }
  }

  lemma {:induction false} FirstFit(p: SearchPlan, certs: seq<Cert>, h: Bytes, start: nat, i: nat)
    requires p.Valid() && !p.mode.exact && Certified(p, certs) && AsciiRange(h, start, start + p.maxUnits) && i < |certs|
    requires Fits(certs[i], h, start) && forall k: nat :: k < i ==> !Fits(certs[k], h, start)
    ensures BestHere(p, h, start, Some((i, certs[i].units)))
  {
    hide SearchPlan.Valid, MatchEnd, Fits, CertOf;
    ModeOf(p);
    forall k: nat | k <= i ensures MatchesAt(p.mode, h, start, p.Ps(), k) <==> k == i {
      FitIsMatch(p, certs[k], h, start, k);
    }
    FitIsMatch(p, certs[i], h, start, i);
    assert MatchesAt(p.mode, h, start, p.Ps(), i);
    var b := BestAt(p.mode, h, start, p.Ps());
    assert b.Some? && b.value <= i && MatchesAt(p.mode, h, start, p.Ps(), b.value);
  }

  lemma {:induction false} NoFit(p: SearchPlan, certs: seq<Cert>, h: Bytes, start: nat)
    requires p.Valid() && !p.mode.exact && Certified(p, certs) && AsciiRange(h, start, start + p.maxUnits)
    requires forall k: nat :: k < |certs| ==> !Fits(certs[k], h, start)
    ensures BestHere(p, h, start, None)
  {
    hide SearchPlan.Valid, MatchEnd, Fits, CertOf;
    ModeOf(p);
    forall k: nat | k < |p.Ps()| ensures !MatchesAt(p.mode, h, start, p.Ps(), k) {
      FitIsMatch(p, certs[k], h, start, k);
    }
    var b := BestAt(p.mode, h, start, p.Ps());
  }

  // ----- enumeration

  /** The stored certificates of the plan. */
  ghost predicate Loaded(p: SearchPlan, data: Option<Bytes>, certs: seq<Cert>)
    reads p
  {
    data.Some? ==> Certified(p, certs) && p.maxUnits <= MAX_UNITS && Stored(data.value, p.maxUnits, certs)
  }

  /** Confirm a candidate: by the stored words when they can tell, else by the trie. */
  method MatchRootBucketCandidate(p: SearchPlan, data: Option<Bytes>, ghost certs: seq<Cert>, h: Bytes, start: nat) returns (found: Option<(nat, nat)>)
    requires p.Valid() && !p.mode.exact && NoEmptyPattern(p) && Loaded(p, data, certs) && start < |h|
    ensures BestHere(p, h, start, found)
  {
    hide SearchPlan.Valid, NoEmptyPattern, BestHere, Certified, Stored;
    if data.Some? {
      var known;
      found, known := MatchRootASCIIWordCertData(p, data.value, certs, h, start);
      if known {
        return;
      }
    }
    found := MatchAtStart(p, h, start);
  }

  /** Nothing starts in the range. */
  ghost predicate Quiet(p: SearchPlan, h: Bytes, from: nat, at: nat)
    reads p
  {
    forall q: nat, i: nat :: from <= q < at ==> !Starts(p, h, q, i)
  }

  lemma {:induction false} QuietMore(p: SearchPlan, h: Bytes, from: nat, at: nat, to: nat)
    requires Quiet(p, h, from, at) && at <= to && forall q: nat, i: nat :: at <= q < to ==> !Starts(p, h, q, i)
    ensures Quiet(p, h, from, to)
  {
  }

  lemma {:induction false} NothingHere(p: SearchPlan, h: Bytes, at: nat)
    requires BestHere(p, h, at, None)
    ensures forall i: nat :: !Starts(p, h, at, i)
  {
    forall i: nat ensures !Starts(p, h, at, i) {
      assert Starts(p, h, at, i) ==> MatchesAt(p.mode, h, at, p.Ps(), i);
    }
  }

  lemma {:induction false} QuietNone(p: SearchPlan, h: Bytes, q: nat)
    requires p.mode.Valid() && NoEmptyPattern(p) && q <= |h| && forall i: nat :: !Starts(p, h, q, i)
    ensures BestAt(p.mode, h, q, p.Ps()) == None
  {
    var b := BestAt(p.mode, h, q, p.Ps());
    if b.Some? {
      NonemptyStarts(p, h, q, b.value);
      assert false;
    }
  }

  /** The first candidate that is confirmed is the next match. */
  lemma {:induction false} FoundNext(p: SearchPlan, h: Bytes, from: nat, at: nat, i: nat, width: nat)
    requires p.Valid() && !OpaqueContinuation(p) && NoEmptyPattern(p) && from <= at < |h| && Quiet(p, h, from, at) && BestHere(p, h, at, Some((i, width)))
    ensures FindFrom(p.mode, h, p.Ps(), from) == Some(Hit(i, at))
    ensures i < |p.Ps()| && 0 < width && MatchEnd(p.mode, h, at, p.Ps()[i]) == Some(at + width)
  {
    hide SearchPlan.Valid, OpaqueContinuation, Starts, MatchEnd, FindFrom;
    ModeOf(p);
    BestStarts(p, h, at, i, width);
    StartIsBoundary(p, h, at, i, from);
    forall q | from <= q < at && Reaches(p.mode, h, from, q) ensures BestAt(p.mode, h, q, p.Ps()) == None {
      QuietNone(p, h, q);
    }
    FindIs(p.mode, h, p.Ps(), from, Hit(i, at));
  }

  lemma {:induction false} BestStarts(p: SearchPlan, h: Bytes, at: nat, i: nat, width: nat)
    requires p.mode.Valid() && NoEmptyPattern(p) && at <= |h| && BestHere(p, h, at, Some((i, width)))
    ensures i < |p.Ps()| && Starts(p, h, at, i) && 0 < width && MatchEnd(p.mode, h, at, p.Ps()[i]) == Some(at + width)
  {
    NonemptyStarts(p, h, at, i);
  }

  /** In the last two bytes nothing starts. */
  lemma {:induction false} NothingMore(p: SearchPlan, ts: seq<Triple>, h: Bytes, from: nat, at: nat)
    requires p.Valid() && NoEmptyPattern(p) && ScreensAll(p, ts) && from <= |h| && Quiet(p, h, from, at) && at + 2 >= |h|
    ensures FindFrom(p.mode, h, p.Ps(), from) == None
  {
    hide SearchPlan.Valid, Starts, MatchEnd, FindFrom, BestAt, ScreensAll;
    ModeOf(p);
    forall q: nat | from <= q <= |h| ensures BestAt(p.mode, h, q, p.Ps()) == None {
      forall i: nat ensures !Starts(p, h, q, i) {
        TripleStarts(p, ts, h, q, i);
      }
      QuietNone(p, h, q);
    }
    FindIsNone(p.mode, h, p.Ps(), from);
  }

  lemma {:induction false} TripleStarts(p: SearchPlan, ts: seq<Triple>, h: Bytes, q: nat, i: nat)
    requires ScreensAll(p, ts)
    ensures Starts(p, h, q, i) ==> q + 3 <= |h|
  {
    hide Starts;
    assert Starts(p, h, q, i) ==> AdmitsTriple(ts, h, q);
  }

  /** Enumerate the candidates of the buckets in source order. */
  method EachRootBucket(p: SearchPlan, ts: seq<Triple>, ghost prefixes: seq<Word>, bucket: Bucket, data: Option<Bytes>, ghost certs: seq<Cert>,
                        h: Bytes, blocks: nat -> bool, goOn: seq<Emit> -> bool) returns (emitted: seq<Emit>, done: bool)
    requires Bucketed(p, ts, prefixes, bucket) && !OpaqueContinuation(p) && NoEmptyPattern(p) && Loaded(p, data, certs)
    ensures Enumerates(EachFrom(p.mode, h, p.Ps(), 0), goOn, emitted, done)
  {
    hide SearchPlan.Valid, OpaqueContinuation, NoEmptyPattern, Loaded, BestHere, Quiet, FindFrom, EachFrom, Enumerates, Emitting, Starts,
         ScreensAll, PrefixesComplete, SlotHolds, MatchEnd;
    ModeOf(p);
    ghost var m, ps := p.mode, p.Ps();
    ghost var all, from: nat := EachFrom(m, h, ps, 0), 0;
    var at: nat := 0;
    emitted := [];
    EmitNothing(all, goOn);
    QuietNothing(p, h, 0);
    while at + 2 < |h|
      invariant from <= at <= |h| && Quiet(p, h, from, at) && Emitting(all, goOn, emitted, EachFrom(m, h, ps, from))
      decreases |h| - at
    {
      var to := TripleBucketSkip(p, ts, prefixes, bucket, h, at, blocks);
      QuietMore(p, h, from, at, to);
      at := to;
      if at + 2 >= |h| {
        break;
      }
      var found := MatchRootBucketCandidate(p, data, certs, h, at);
      if found.None? {
        NothingHere(p, h, at);
        QuietMore(p, h, from, at, at + 1);
        at := at + 1;
        continue;
      }
      var i, width := found.value.0, found.value.1;
      FoundNext(p, h, from, at, i, width);
      var e := Emit(i, at, width);
      EachSome(m, h, ps, from, e);
      EmitMore(all, goOn, emitted, e, EachFrom(m, h, ps, at + width));
      emitted := emitted + [e];
      if !goOn(emitted) {
        return emitted, false;
      }
      at := at + width;
      from := at;
      QuietNothing(p, h, at);
    }
    NothingMore(p, ts, h, from, at);
    EachNone(m, h, ps, from);
    EmitDone(all, goOn, emitted);
    done := true;
  }

  lemma {:induction false} QuietNothing(p: SearchPlan, h: Bytes, at: nat)
    ensures Quiet(p, h, at, at)
  {
  }
}
